/** `formatter/UserFormatter.java`: the line a user occupies in the user
    file, "id,name,email,password,role". `textToUser` indexes the fields
    without checking their number: later fields are ignored and a missing
    one fails with an index error. */
module UserFormatter {
  import opened Common
  import opened Text

  /** A constant of the `Role` enum, known by its name. */
  datatype Role = Role(name: ConstName)

  /** The fields of a `User` that the formatter reads and writes. */
  datatype User = User(id: Long, name: string, email: string, password: string, role: Role)

  /** The fields of a user line, in the order `userToText` writes them. */
  function UserFields(u: User): (r: seq<string>)
    ensures |r| == 5
  {
    [ShowInt(u.id), u.name, u.email, u.password, u.role.name]
  }

  /** `userToText`: the fields with "," between them. */
  function UserToText(u: User): string {
    Join(UserFields(u), ',')
  }

  /** `Role.valueOf(name)`, where `roles` holds the names of the enum's
      constants: an IllegalArgumentException for any other name. */
  function RoleValueOf(name: string, roles: set<ConstName>): (r: Result<Role>)
    ensures r.Ok? <==> name in roles
    ensures r.Ok? ==> r.value.name == name
    ensures r.Err? ==> r.error == IllegalArgument
  {
    if IsConstantName(name) && name in roles then Ok(Role(name)) else Err(IllegalArgument)
  }

  /** `textToUser`. Java evaluates `attr[1]` to `attr[4]` first, then
      `Role.valueOf(attr[4])`, and `Long.parseLong(attr[0])` last. */
  function TextToUser(line: string, roles: set<ConstName>): (r: Result<User>)
    ensures var attr := JavaSplit(line, ',');
      && (r == Err(IndexOutOfBounds) <==> |attr| < 5)
      && (r == Err(IllegalArgument) <==> |attr| >= 5 && attr[4] !in roles)
      && (r == Err(NumberFormat) <==> |attr| >= 5 && attr[4] in roles && ParseLong(attr[0]).Err?)
      && (r.Ok? ==> r.value.name == attr[1] && r.value.email == attr[2] && r.value.password == attr[3]
                    && r.value.role.name == attr[4] && ParseLong(attr[0]) == Ok(r.value.id))
  {
    var attr := JavaSplit(line, ',');
    if |attr| < 5 then Err(IndexOutOfBounds)
    else
      var role :- RoleValueOf(attr[4], roles);
      var id :- ParseLong(attr[0]);
      Ok(User(id, attr[1], attr[2], attr[3], role))
  }

  /** Name, email and password hold no comma. */
  predicate CommaFree(u: User) {
    ',' !in u.name && ',' !in u.email && ',' !in u.password
  }

  /** A written line splits into exactly its five fields. */
  lemma UserToTextSplits(u: User)
    requires CommaFree(u)
    ensures JavaSplit(UserToText(u), ',') == UserFields(u)
  {
    ShowIntChars(u.id);
    ConstantNameCommaFree(u.role.name);
    assert FreeOf(UserFields(u), ',');
    JavaSplitJoin(UserFields(u), ',');
  }

  /** Reading back a written line gives the same user, when name, email
      and password hold no comma and the role is a constant of the enum. */
  lemma UserRoundTrip(u: User, roles: set<ConstName>)
    requires CommaFree(u) && u.role.name in roles
    ensures TextToUser(UserToText(u), roles) == Ok(u)
  {
    UserToTextSplits(u);
    ParseLongShow(u.id);
  }

  /** Only the first five fields are read: two lines that agree on them
      read the same. */
  lemma ExtraFieldsIgnored(a: string, b: string, roles: set<ConstName>)
    requires |JavaSplit(a, ',')| >= 5 && |JavaSplit(b, ',')| >= 5
    requires JavaSplit(a, ',')[..5] == JavaSplit(b, ',')[..5]
    ensures TextToUser(a, roles) == TextToUser(b, roles)
  {
    var fa, fb := JavaSplit(a, ','), JavaSplit(b, ',');
    assert forall i :: 0 <= i < 5 ==> fa[i] == fa[..5][i] == fb[..5][i] == fb[i];
  }

  /** The user of the formatter's tests is written as
      "1,Jhon Doe,jhondoe@example.com,password,CUSTOMER". */
  lemma UserToTextExample()
    ensures UserFields(User(1, "Jhon Doe", "jhondoe@example.com", "password", Role("CUSTOMER")))
      == ["1", "Jhon Doe", "jhondoe@example.com", "password", "CUSTOMER"]
  {
  }
}
