/** `model/Index.java`: an (id, position) pair of the cap index as one
    line of text, "key,direction". `toLine` prints both numbers with
    `String.format("%d,%d")`; `fromLine` splits at "," and parses the two
    fields, and refuses a line that does not have exactly two. */
module IndexModel {
  import opened Common
  import opened Text

  /** `%d` of a `Long` that may be null. */
  function KeyText(key: Option<Long>): string {
    if key.Some? then ShowInt(key.value) else "null"
  }

  /** The line `toLine` writes. */
  function IndexLine(key: Option<Long>, direction: Int32): string {
    KeyText(key) + "," + ShowInt(direction)
  }

  /** What `fromLine` makes of a line: a RuntimeException unless `split`
      gives exactly two fields, then `Long.parseLong` of the first and
      `Integer.parseInt` of the second, neither of them trimmed. */
  function ParseIndexLine(line: string): (r: Result<(Long, Int32)>)
    ensures r == Err(InvalidLine) <==> |JavaSplit(line, ',')| != 2
    ensures r.Err? && |JavaSplit(line, ',')| == 2 ==> r.error == NumberFormat
  {
    var args := JavaSplit(line, ',');
    if |args| == 2 then
      var key :- ParseLong(args[0]);
      var direction :- ParseInt(args[1]);
      Ok((key, direction))
    else
      Err(InvalidLine)
  }

  class Index {
    var key: Option<Long>
    var direction: Int32

    constructor (key: Option<Long>, direction: Int32)
      ensures this.key == key && this.direction == direction
    {
      this.key := key;
      this.direction := direction;
    }

    method SetKey(key: Option<Long>)
      modifies this
      ensures this.key == key && direction == old(direction)
    {
      this.key := key;
    }

    method SetDirection(direction: Int32)
      modifies this
      ensures this.direction == direction && key == old(key)
    {
      this.direction := direction;
    }

    /** `toLine`. */
    function ToLine(): string
      reads this
    {
      IndexLine(key, direction)
    }

    /** `fromLine`: a fresh index holding the two parsed numbers. */
    static method FromLine(line: string) returns (r: Result<Index>)
      ensures r.Ok? <==> ParseIndexLine(line).Ok?
      ensures r.Err? ==> r.error == ParseIndexLine(line).error
      ensures r.Ok? ==> fresh(r.value) && r.value.key == Some(ParseIndexLine(line).value.0)
                        && r.value.direction == ParseIndexLine(line).value.1
    {
      var arguments := JavaSplit(line, ',');
      if |arguments| == 2 {
        var key := ParseLong(arguments[0]);
        if key.Err? {
          return Err(key.error);
        }
        var direction := ParseInt(arguments[1]);
        if direction.Err? {
          return Err(direction.error);
        }
        var index := new Index(Some(key.value), direction.value);
        return Ok(index);
      }
      return Err(InvalidLine);
    }
  }

  /** A written line splits into exactly the two printed fields. */
  lemma IndexLineFields(key: Option<Long>, direction: Int32)
    ensures JavaSplit(IndexLine(key, direction), ',') == [KeyText(key), ShowInt(direction)]
  {
    var fs := [KeyText(key), ShowInt(direction)];
    ShowIntChars(direction);
    if key.Some? {
      ShowIntChars(key.value);
    } else {
      assert forall i :: 0 <= i < 4 ==> "null"[i] != ',';
    }
    assert FreeOf(fs, ',');
    assert Join(fs[1..], ',') == ShowInt(direction);
    assert Join(fs, ',') == IndexLine(key, direction);
    JavaSplitJoin(fs, ',');
  }

  /** `fromLine(toLine())` gives back the key and the direction whenever
      the key is not null. */
  lemma IndexLineRoundTrip(key: Long, direction: Int32)
    ensures ParseIndexLine(IndexLine(Some(key), direction)) == Ok((key, direction))
  {
    IndexLineFields(Some(key), direction);
    ParseLongShow(key);
    ParseIntShow(direction);
  }

  /** A null key is written as "null", which `Long.parseLong` refuses, so
      such a line does not read back. */
  lemma NullKeyLine(direction: Int32)
    ensures ParseIndexLine(IndexLine(None, direction)) == Err(NumberFormat)
  {
    IndexLineFields(None, direction);
    assert !IsDigit("null"[0]);
  }

  /** A line without a comma is one field, and is refused as invalid. */
  lemma OneFieldLine(line: string)
    requires ',' !in line
    ensures ParseIndexLine(line) == Err(InvalidLine)
  {
  }
}
