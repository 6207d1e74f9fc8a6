/** `formatter/CapFormatter.java`: the line a cap occupies in the cap file.
    `capToText` writes eight comma-separated fields: id, style, color,
    brand, collaboration, size, gender and stock. A missing collaboration
    or gender is written as "-". The price is not written, although the
    method's documentation lists it. The class has no decoder: its
    `TextToCap` is commented out. */
module CapFormatter {
  import opened Common
  import opened Text
  import opened CapModel

  /** The text written for a field that may be null. */
  function OrDash(s: Option<string>): string {
    if s.Some? then s.value else "-"
  }

  function GenderText(g: Option<Gender>): string {
    if g.Some? then g.value.name else "-"
  }

  /** The fields of a cap line, in the order `capToText` writes them. */
  function CapFields(c: CapValue): (r: seq<string>)
    ensures |r| == 8
  {
    [ShowInt(c.id), c.style.name, c.color, c.brand, OrDash(c.collaboration),
     c.size.Name(), GenderText(c.gender), ShowInt(c.stock)]
  }

  /** `capToText`: the fields with "," between them. */
  function CapToText(c: CapValue): string {
    Join(CapFields(c), ',')
  }

  /** Neither of the free-text fields nor the collaboration holds a comma. */
  predicate CommaFree(c: CapValue) {
    ',' !in c.color && ',' !in c.brand && ',' !in OrDash(c.collaboration)
  }

  /** When color, brand and collaboration hold no comma, splitting the line
      at its commas gives back exactly the eight fields, so the line holds
      exactly seven separators. */
  lemma CapToTextSplits(c: CapValue)
    requires CommaFree(c)
    ensures JavaSplit(CapToText(c), ',') == CapFields(c)
    ensures RawSplit(CapToText(c), ',') == CapFields(c)
    ensures Count(CapToText(c), ',') == 7
  {
    var fs := CapFields(c);
    ShowIntChars(c.id);
    ShowIntChars(c.stock);
    ConstantNameCommaFree(c.style.name);
    ConstantNameCommaFree(c.size.Name());
    if c.gender.Some? {
      ConstantNameCommaFree(c.gender.value.name);
    }
    assert FreeOf(fs, ',');
    JavaSplitJoin(fs, ',');
    RawSplitJoin(fs, ',');
    RawSplitCount(CapToText(c), ',');
  }

  /** Two caps that differ only in price have the same line. */
  lemma PriceNotWritten(c: CapValue, price: real)
    ensures CapToText(c.(price := price)) == CapToText(c)
  {
  }

  /** A cap with neither collaboration nor gender: the line is
      "1,BASEBALL_CAP,Black,addidas,-,LARGE,-,3". */
  lemma CapToTextWithoutOptionals()
    ensures CapFields(CapValue(1, "addidas", CapStyle("BASEBALL_CAP"), "Black", None, 45000.0, Large, None, 3))
      == ["1", "BASEBALL_CAP", "Black", "addidas", "-", "LARGE", "-", "3"]
  {
  }

  /** A cap with both a collaboration and a gender: the line is
      "1,BASEBALL_CAP,Black,addidas,BMW,LARGE,MALE,3". */
  lemma CapToTextWithOptionals()
    ensures CapFields(CapValue(1, "addidas", CapStyle("BASEBALL_CAP"), "Black", Some("BMW"), 45000.0, Large, Some(Gender("MALE")), 3))
      == ["1", "BASEBALL_CAP", "Black", "addidas", "BMW", "LARGE", "MALE", "3"]
  {
  }
}
