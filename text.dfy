/** The pieces of `java.lang.String`, `Long`, `Integer` and `BufferedReader`
    that the codecs rely on: `split` with a one-character separator,
    joining with a separator, ASCII `toLowerCase` / `equalsIgnoreCase`,
    `isBlank`, `trim`, decimal printing and `parseLong` / `parseInt`, and
    the division of a file into lines. */
module Text {
  import opened Common

  // ---------------------------------------------------------------------
  // Splitting and joining
  // ---------------------------------------------------------------------

  /** The pieces of `s` between occurrences of `sep`, empty pieces kept. */
  function RawSplit(s: string, sep: char): (r: seq<string>)
    ensures |r| >= 1
    decreases |s|
  {
    if |s| == 0 then [""]
    else if s[0] == sep then [""] + RawSplit(s[1..], sep)
    else
      var t := RawSplit(s[1..], sep);
      [[s[0]] + t[0]] + t[1..]
  }

  /** Removes the empty strings at the end of `fs`. */
  function DropTrailingEmpty(fs: seq<string>): (r: seq<string>)
    ensures |r| <= |fs| && r == fs[..|r|]
    ensures forall i :: |r| <= i < |fs| ==> fs[i] == ""
    ensures r == [] || r[|r| - 1] != ""
  {
    if fs == [] then []
    else if fs[|fs| - 1] == "" then DropTrailingEmpty(fs[..|fs| - 1])
    else fs
  }

  /** `s.split(sep)` for a separator that is not a regular-expression
      metacharacter: when `sep` does not occur the answer is `[s]` (so `""`
      gives `[""]`); otherwise the pieces, with trailing empty pieces
      removed. */
  function JavaSplit(s: string, sep: char): seq<string> {
    if sep in s then DropTrailingEmpty(RawSplit(s, sep)) else [s]
  }

  /** The strings of `fs` with `sep` between consecutive ones. */
  function Join(fs: seq<string>, sep: char): string
    decreases |fs|
  {
    if |fs| == 0 then ""
    else if |fs| == 1 then fs[0]
    else fs[0] + [sep] + Join(fs[1..], sep)
  }

  /** No string of `fs` contains `sep`. */
  predicate FreeOf(fs: seq<string>, sep: char) {
    forall i :: 0 <= i < |fs| ==> sep !in fs[i]
  }

  lemma {:induction false} RawSplitWithout(s: string, sep: char)
    requires sep !in s
    ensures RawSplit(s, sep) == [s]
    decreases |s|
  {
    if |s| > 0 {
      RawSplitWithout(s[1..], sep);
      assert [s[0]] + s[1..] == s;
    }
  }

  lemma {:induction false} RawSplitAfterPiece(f: string, sep: char, rest: string)
    requires sep !in f
    ensures RawSplit(f + [sep] + rest, sep) == [f] + RawSplit(rest, sep)
    decreases |f|
  {
    var s := f + [sep] + rest;
    if |f| == 0 {
      assert s == [sep] + rest;
      assert s[1..] == rest;
    } else {
      assert s[0] == f[0];
      assert s[1..] == f[1..] + [sep] + rest;
      RawSplitAfterPiece(f[1..], sep, rest);
      assert [f[0]] + f[1..] == f;
    }
  }

  /** Splitting undoes joining, empty pieces included. */
  lemma {:induction false} RawSplitJoin(fs: seq<string>, sep: char)
    requires |fs| >= 1 && FreeOf(fs, sep)
    ensures RawSplit(Join(fs, sep), sep) == fs
    decreases |fs|
  {
    if |fs| == 1 {
      RawSplitWithout(fs[0], sep);
    } else {
      RawSplitJoin(fs[1..], sep);
      RawSplitAfterPiece(fs[0], sep, Join(fs[1..], sep));
      assert [fs[0]] + fs[1..] == fs;
    }
  }

  lemma JoinHasSeparator(fs: seq<string>, sep: char)
    requires |fs| >= 2
    ensures sep in Join(fs, sep)
  {
    assert Join(fs, sep)[|fs[0]|] == sep;
  }

  /** Java's `split` undoes joining when there are at least two pieces and
      the last one is not empty. */
  lemma JavaSplitJoin(fs: seq<string>, sep: char)
    requires |fs| >= 2 && FreeOf(fs, sep) && fs[|fs| - 1] != ""
    ensures JavaSplit(Join(fs, sep), sep) == fs
  {
    JoinHasSeparator(fs, sep);
    RawSplitJoin(fs, sep);
  }

  /** How often `c` occurs in `s`. */
  function Count(s: string, c: char): nat
    decreases |s|
  {
    if s == [] then 0 else (if s[0] == c then 1 else 0) + Count(s[1..], c)
  }

  /** Splitting gives one piece more than there are separators. */
  lemma {:induction false} RawSplitCount(s: string, sep: char)
    ensures |RawSplit(s, sep)| == Count(s, sep) + 1
    decreases |s|
  {
    if s != [] {
      RawSplitCount(s[1..], sep);
    }
  }

  /** Joining a one-element suffix. */
  lemma {:induction false} JoinSnoc(fs: seq<string>, f: string, sep: char)
    requires |fs| >= 1
    ensures Join(fs + [f], sep) == Join(fs, sep) + [sep] + f
    decreases |fs|
  {
    if |fs| == 1 {
      assert (fs + [f])[1..] == [f];
    } else {
      assert (fs + [f])[1..] == fs[1..] + [f];
      JoinSnoc(fs[1..], f, sep);
    }
  }

  // ---------------------------------------------------------------------
  // Case, blanks, trimming
  // ---------------------------------------------------------------------

  /** `Character.toLowerCase` restricted to ASCII letters. */
  function LowerChar(c: char): char {
    if 'A' <= c <= 'Z' then (c as int + 32) as char else c
  }

  /** `String.toLowerCase` restricted to ASCII letters. */
  function Lower(s: string): (r: string)
    ensures |r| == |s|
    ensures forall i :: 0 <= i < |s| ==> r[i] == LowerChar(s[i])
  {
    seq(|s|, i requires 0 <= i < |s| => LowerChar(s[i]))
  }

  /** No upper-case ASCII letter occurs in `s`. */
  predicate IsLowerCase(s: string) {
    forall i :: 0 <= i < |s| ==> !('A' <= s[i] <= 'Z')
  }

  /** What `Lower` produces is lower case, lower-casing it again changes
      nothing, and a lower-case string is its own lower-casing. */
  lemma LowerFacts(s: string)
    ensures IsLowerCase(Lower(s))
    ensures Lower(Lower(s)) == Lower(s)
    ensures IsLowerCase(s) ==> Lower(s) == s
  {
  }

  /** `a.equalsIgnoreCase(b)`, with ASCII case folding. */
  predicate EqualsIgnoreCase(a: string, b: string) {
    Lower(a) == Lower(b)
  }

  /** `Character.isWhitespace` on ASCII characters. */
  predicate IsWhitespace(c: char) {
    c == ' ' || '\t' <= c <= '\r' || '\U{1C}' <= c <= '\U{1F}'
  }

  /** `String.isBlank`: empty, or white space only. */
  predicate IsBlank(s: string) {
    forall i :: 0 <= i < |s| ==> IsWhitespace(s[i])
  }

  /** `String.trim`: strips every character at or below U+0020 from both ends. */
  function Trim(s: string): (r: string)
    decreases |s|
  {
    if |s| > 0 && s[0] <= ' ' then Trim(s[1..])
    else if |s| > 0 && s[|s| - 1] <= ' ' then Trim(s[..|s| - 1])
    else s
  }

  // ---------------------------------------------------------------------
  // Enum constant names
  // ---------------------------------------------------------------------

  /** A Java enum constant's name, as `toString()` and `valueOf` use it:
      letters, digits and underscores, never empty. */
  predicate IsConstantName(s: string) {
    |s| > 0 && forall i :: 0 <= i < |s| ==> ('A' <= s[i] <= 'Z' || 'a' <= s[i] <= 'z' || IsDigit(s[i]) || s[i] == '_')
  }

  type ConstName = s: string | IsConstantName(s) witness "A"

  /** A constant name holds no separator of the text files. */
  lemma ConstantNameCommaFree(s: ConstName)
    ensures ',' !in s && '\n' !in s && s != ""
  {
    assert IsConstantName(s);
    assert forall i :: 0 <= i < |s| ==> s[i] != ',' && s[i] != '\n';
  }

  // ---------------------------------------------------------------------
  // Decimal numbers
  // ---------------------------------------------------------------------

  predicate IsDigit(c: char) {
    '0' <= c <= '9'
  }

  predicate AllDigits(s: string) {
    forall i :: 0 <= i < |s| ==> IsDigit(s[i])
  }

  function DigitChar(d: nat): (c: char)
    requires d < 10
  {
    ('0' as int + d) as char
  }

  /** The decimal digits of `n`, without leading zeros. */
  function ShowNat(n: nat): string
    decreases n
  {
    if n < 10 then [DigitChar(n)] else ShowNat(n / 10) + [DigitChar(n % 10)]
  }

  /** `Long.toString(n)` / `Integer.toString(n)` / `%d`. */
  function ShowInt(n: int): string {
    if n < 0 then "-" + ShowNat(-n) else ShowNat(n)
  }

  /** The number a non-empty string of decimal digits stands for. */
  function DigitsValue(s: string): nat
    requires AllDigits(s)
  {
    if s == [] then 0 else DigitsValue(s[..|s| - 1]) * 10 + (s[|s| - 1] as int - '0' as int)
  }

  /** The sign-and-digits syntax shared by `Long.parseLong` and
      `Integer.parseInt`: an optional `-` or `+`, then one or more digits. */
  function ParseDecimal(s: string): Option<int> {
    var signed := |s| > 0 && (s[0] == '-' || s[0] == '+');
    var digits := if signed then s[1..] else s;
    if |digits| == 0 || !AllDigits(digits) then None
    else if |s| > 0 && s[0] == '-' then Some(0 - DigitsValue(digits))
    else Some(DigitsValue(digits))
  }

  /** `Long.parseLong(s)`: NumberFormatException unless `s` is a decimal
      numeral whose value fits in a `long`. */
  function ParseLong(s: string): (r: Result<Long>)
    ensures r.Ok? <==> ParseDecimal(s).Some? && InLongRange(ParseDecimal(s).value)
    ensures r.Err? ==> r.error == NumberFormat
  {
    match ParseDecimal(s)
    case Some(v) => if InLongRange(v) then Ok(v) else Err(NumberFormat)
    case None => Err(NumberFormat)
  }

  /** `Integer.parseInt(s)`: NumberFormatException unless `s` is a decimal
      numeral whose value fits in an `int`. */
  function ParseInt(s: string): (r: Result<Int32>)
    ensures r.Ok? <==> ParseDecimal(s).Some? && InIntRange(ParseDecimal(s).value)
    ensures r.Err? ==> r.error == NumberFormat
  {
    match ParseDecimal(s)
    case Some(v) => if InIntRange(v) then Ok(v) else Err(NumberFormat)
    case None => Err(NumberFormat)
  }

  lemma {:induction false} ShowNatDigits(n: nat)
    ensures |ShowNat(n)| >= 1 && AllDigits(ShowNat(n))
    ensures DigitsValue(ShowNat(n)) == n
    decreases n
  {
    if n >= 10 {
      ShowNatDigits(n / 10);
      var s := ShowNat(n / 10);
      assert ShowNat(n)[..|ShowNat(n)| - 1] == s;
    }
  }

  /** Every character of a printed number is a digit or the minus sign, so
      it holds no separator and no character that `trim` would remove. */
  lemma ShowIntChars(n: int)
    ensures |ShowInt(n)| >= 1
    ensures forall i :: 0 <= i < |ShowInt(n)| ==> IsDigit(ShowInt(n)[i]) || ShowInt(n)[i] == '-'
    ensures ',' !in ShowInt(n)
    ensures Trim(ShowInt(n)) == ShowInt(n)
  {
    ShowNatDigits(if n < 0 then -n else n);
  }

  /** Parsing reads back what printing wrote, for every integer. */
  lemma ParseShow(n: int)
    ensures ParseDecimal(ShowInt(n)) == Some(n)
  {
    ShowNatDigits(if n < 0 then -n else n);
    if n < 0 {
      assert ShowInt(n)[1..] == ShowNat(-n);
    } else {
      assert IsDigit(ShowInt(n)[0]);
    }
  }

  /** `Long.parseLong(Long.toString(n)) == n`. */
  lemma ParseLongShow(n: Long)
    ensures ParseLong(ShowInt(n)) == Ok(n)
  {
    ParseShow(n);
  }

  /** `Integer.parseInt(Integer.toString(n)) == n`. */
  lemma ParseIntShow(n: Int32)
    ensures ParseInt(ShowInt(n)) == Ok(n)
  {
    ParseShow(n);
  }

  /** The printed forms of a sequence of numbers. */
  function ShowAll(ns: seq<int>): (r: seq<string>)
    ensures |r| == |ns|
    ensures forall i :: 0 <= i < |ns| ==> r[i] == ShowInt(ns[i])
  {
    seq(|ns|, i requires 0 <= i < |ns| => ShowInt(ns[i]))
  }

  lemma ShowAllFreeOfSeparator(ns: seq<int>)
    ensures FreeOf(ShowAll(ns), ',')
    ensures forall i :: 0 <= i < |ns| ==> ShowAll(ns)[i] != ""
  {
    forall i | 0 <= i < |ns| ensures ',' !in ShowAll(ns)[i] && ShowAll(ns)[i] != "" {
      ShowIntChars(ns[i]);
    }
  }

  // ---------------------------------------------------------------------
  // Files as text
  // ---------------------------------------------------------------------

  /** `BufferedReader.lines()` for '\n' line terminators: an empty file has
      no lines, and a final terminator does not start another line. */
  function Lines(content: string): seq<string> {
    if content == [] then []
    else
      var r := RawSplit(content, '\n');
      if content[|content| - 1] == '\n' then r[..|r| - 1] else r
  }

  /** A separator in the middle splits the text into the pieces on
      either side of it. */
  lemma {:induction false} RawSplitConcat(a: string, sep: char, b: string)
    ensures RawSplit(a + [sep] + b, sep) == RawSplit(a, sep) + RawSplit(b, sep)
    decreases |a|
  {
    var s := a + [sep] + b;
    if |a| == 0 {
      assert s == [sep] + b;
      assert s[1..] == b;
    } else {
      assert s[0] == a[0];
      assert s[1..] == a[1..] + [sep] + b;
      RawSplitConcat(a[1..], sep, b);
    }
  }

  /** Appending a terminator and a line, as `FileWriter.append("\n")
      .append(line)` does, adds that line, after an empty one when the
      file was empty or already ended with a terminator. */
  lemma LinesAppend(file: string, line: string)
    requires '\n' !in line && line != ""
    ensures Lines(file + "\n" + line) == Lines(file) + [line]
         || Lines(file + "\n" + line) == Lines(file) + ["", line]
  {
    var c := file + "\n" + line;
    assert c == file + ['\n'] + line;
    assert c[|c| - 1] == line[|line| - 1];
    RawSplitConcat(file, '\n', line);
    RawSplitWithout(line, '\n');
    if file != [] && file[|file| - 1] == '\n' {
      var init := file[..|file| - 1];
      assert file == init + ['\n'] + "";
      RawSplitConcat(init, '\n', "");
    }
  }

  /** One round of a loop that appends a separator when the text so far is
      not empty and then the next piece: with no empty piece the text is
      empty only before the first round, so the loop joins the pieces. */
  lemma JoinNext(ls: seq<string>, i: nat, sep: char, content: string)
    requires i < |ls| && content == Join(ls[..i], sep)
    requires forall j :: 0 <= j < |ls| ==> ls[j] != ""
    ensures |content| > 0 <==> i > 0
    ensures (if i > 0 then content + [sep] + ls[i] else content + ls[i]) == Join(ls[..i + 1], sep)
  {
    if i == 0 {
      assert ls[..1] == [ls[0]];
    } else {
      assert ls[..i][0] == ls[0];
      JoinSnoc(ls[..i], ls[i], sep);
      assert ls[..i] + [ls[i]] == ls[..i + 1];
    }
  }

  /** Joined text ends with the last character of its last piece. */
  lemma JoinEnds(fs: seq<string>, sep: char)
    requires fs != [] && fs[|fs| - 1] != ""
    ensures var c := Join(fs, sep);
      c != [] && c[|c| - 1] == fs[|fs| - 1][|fs[|fs| - 1]| - 1]
  {
    if |fs| >= 2 {
      var last := fs[|fs| - 1];
      JoinSnoc(fs[..|fs| - 1], last, sep);
      assert fs[..|fs| - 1] + [last] == fs;
    }
  }

  /** Joined lines that hold no terminator read back as the same lines,
      as long as the last one is not empty. */
  lemma LinesJoin(ls: seq<string>)
    requires FreeOf(ls, '\n')
    requires ls != [] ==> ls[|ls| - 1] != ""
    ensures Lines(Join(ls, '\n')) == ls
  {
    if ls != [] {
      JoinEnds(ls, '\n');
      var last := ls[|ls| - 1];
      assert '\n' !in last;
      assert last[|last| - 1] != '\n';
      RawSplitJoin(ls, '\n');
    }
  }
}
