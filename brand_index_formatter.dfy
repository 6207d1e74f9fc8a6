/** `formatter/BrandIndexFormatter.java`: the line a brand-table entry
    occupies in the brand file, "brand,id1,id2,...". Writing puts no
    separator after the last id. Reading takes the first comma field as the
    brand, which the builder lower-cases, and parses every later field as a
    `long`. */
module BrandIndexFormatter {
  import opened Common
  import opened Text
  import opened BrandIndexModel

  /** `StringBuilder.append` of a string that may be null. */
  function BrandName(brand: Option<string>): string {
    if brand.Some? then brand.value else "null"
  }

  /** The line `brandIndexToText` writes: the brand, ",", then the ids with
      "," between consecutive ones. */
  function BrandText(v: BrandIndexValue): string {
    BrandName(v.brand) + "," + Join(ShowAll(v.caps), ',')
  }

  /** The text the `for` loop of `brandIndexToText` has appended after
      its first `i` rounds, given the printed ids `ws`: each one, followed
      by a separator unless it is the last. */
  function Appended(ws: seq<string>, i: nat): string
    requires i <= |ws|
  {
    if i == 0 then ""
    else Appended(ws, i - 1) + ws[i - 1] + (if i - 1 != |ws| - 1 then "," else "")
  }

  /** Before the last round, the loop has written the first ids joined,
      each followed by its separator. */
  lemma {:induction false} AppendedJoin(ws: seq<string>, i: nat)
    requires i < |ws|
    ensures Join(ws[..i + 1], ',') == Appended(ws, i) + ws[i]
  {
    if i == 0 {
      assert ws[..1] == [ws[0]];
    } else {
      AppendedJoin(ws, i - 1);
      assert ws[..i + 1] == ws[..i] + [ws[i]];
      JoinSnoc(ws[..i], ws[i], ',');
    }
  }

  /** After the last round the loop has written the ids joined by ",". */
  lemma AppendedAll(ws: seq<string>)
    ensures Appended(ws, |ws|) == Join(ws, ',')
  {
    if |ws| > 0 {
      AppendedJoin(ws, |ws| - 1);
      assert ws[..|ws|] == ws;
    }
  }

  /** One round of the loop: appending the next printed id, and a
      separator unless it is the last, extends the loop's text by one. */
  lemma AppendedStep(prefix: string, text: string, ws: seq<string>, i: nat, w: string)
    requires i < |ws| && text == prefix + Appended(ws, i) && w == ws[i]
    ensures i != |ws| - 1 ==> text + w + "," == prefix + Appended(ws, i + 1)
    ensures i == |ws| - 1 ==> text + w == prefix + Appended(ws, i + 1)
  {
  }

  /** `brandIndexToText`: the brand and a separator, then the `for` loop
      that appends each id and, except after the last one, a separator. */
  method BrandIndexToText(entry: BrandIndex) returns (text: string)
    ensures text == BrandText(entry.View())
  {
    var ids := entry.caps;
    ghost var ws := ShowAll(ids);
    var prefix := BrandName(entry.brand) + ",";
    text := prefix;
    var i := 0;
    while i < |ids|
      invariant 0 <= i <= |ids|
      invariant text == prefix + Appended(ws, i)
    {
      AppendedStep(prefix, text, ws, i, ShowInt(ids[i]));
      text := text + ShowInt(ids[i]);
      if i != |ids| - 1 {
        text := text + ",";
      }
      i := i + 1;
    }
    AppendedAll(ws);
  }

  /** `Long.parseLong` of each field, in order; the first field that is not
      a number stops the parse with its error. */
  function ParseIds(fs: seq<string>): Result<seq<Long>>
    decreases |fs|
  {
    if fs == [] then Ok([])
    else
      match ParseLong(fs[0])
      case Err(e) => Err(e)
      case Ok(id) =>
        match ParseIds(fs[1..])
        case Err(e) => Err(e)
        case Ok(ids) => Ok([id] + ids)
  }

  /** The parse succeeds exactly when every field is a number, and then
      gives each field's value; otherwise it fails with a
      NumberFormatException. */
  lemma {:induction false} ParseIdsMeaning(fs: seq<string>)
    ensures var r := ParseIds(fs);
      && (r.Ok? <==> forall i :: 0 <= i < |fs| ==> ParseLong(fs[i]).Ok?)
      && (r.Ok? ==> |r.value| == |fs| && forall i :: 0 <= i < |fs| ==> r.value[i] == ParseLong(fs[i]).value)
      && (r.Err? ==> r.error == NumberFormat)
    decreases |fs|
  {
    if fs != [] {
      ParseIdsMeaning(fs[1..]);
      assert forall i :: 1 <= i < |fs| ==> fs[i] == fs[1..][i - 1];
    }
  }

  /** What `textToBrandIndex` makes of a line: the first field, lower-cased,
      as the brand and every later field parsed as an id. */
  function DecodeBrandLine(line: string): (r: Result<BrandIndexValue>)
    ensures r.Ok? ==> r.value.brand.Some? && IsLowerCase(r.value.brand.value)
  {
    var fs := JavaSplit(line, ',');
    if |fs| == 0 then Err(NoSuchElement)
    else
      LowerFacts(fs[0]);
      match ParseIds(fs[1..])
      case Err(e) => Err(e)
      case Ok(ids) => Ok(BrandIndexValue(Some(Lower(fs[0])), ids))
  }

  /** A line that splits into no field at all (only commas) fails in
      `iterator.next()`; a later field that is not a number fails in
      `Long.parseLong`; otherwise the entry holds the first field,
      lower-cased, and the value of each later field. */
  lemma DecodeBrandLineMeaning(line: string)
    ensures var fs := JavaSplit(line, ',');
      var r := DecodeBrandLine(line);
      && (r.Ok? <==> |fs| > 0 && forall i :: 1 <= i < |fs| ==> ParseLong(fs[i]).Ok?)
      && (r.Err? ==> r.error == if fs == [] then NoSuchElement else NumberFormat)
      && (r.Ok? ==> r.value.brand == Some(Lower(fs[0])) && |r.value.caps| == |fs| - 1
                    && forall i :: 1 <= i < |fs| ==> r.value.caps[i - 1] == ParseLong(fs[i]).value)
  {
    var fs := JavaSplit(line, ',');
    if |fs| > 0 {
      ParseIdsMeaning(fs[1..]);
      assert forall i :: 1 <= i < |fs| ==> fs[i] == fs[1..][i - 1];
    }
  }

  /** `textToBrandIndex`: split, build an entry from the first field, then
      the `while (iterator.hasNext())` loop that appends each parsed id. */
  method TextToBrandIndex(line: string) returns (r: Result<BrandIndex>)
    ensures r.Ok? <==> DecodeBrandLine(line).Ok?
    ensures r.Err? ==> r.error == DecodeBrandLine(line).error
    ensures r.Ok? ==> fresh(r.value) && r.value.View() == DecodeBrandLine(line).value
  {
    var fields := JavaSplit(line, ',');
    if |fields| == 0 {
      DecodeBrandLineMeaning(line);
      return Err(NoSuchElement);
    }
    var builder := new BrandIndexBuilder();
    var _ := builder.SetBrand(fields[0]);
    var entry := builder.Build();
    var i := 1;
    while i < |fields|
      invariant 1 <= i <= |fields|
      invariant fresh(entry) && entry.brand == Some(Lower(fields[0])) && |entry.caps| == i - 1
      invariant forall j :: 1 <= j < i ==> ParseLong(fields[j]).Ok? && entry.caps[j - 1] == ParseLong(fields[j]).value
    {
      var id := ParseLong(fields[i]);
      if id.Err? {
        DecodeBrandLineMeaning(line);
        return Err(id.error);
      }
      var _ := entry.AppendCap(id.value);
      i := i + 1;
    }
    DecodeBrandLineMeaning(line);
    ghost var d := DecodeBrandLine(line);
    forall k | 0 <= k < |entry.caps| ensures entry.caps[k] == d.value.caps[k] {
      var j := k + 1;
      assert entry.caps[j - 1] == ParseLong(fields[j]).value;
      assert d.value.caps[j - 1] == ParseLong(fields[j]).value;
    }
    return Ok(entry);
  }

  /** Printed ids parse back to themselves. */
  lemma ParseShowAll(ids: seq<Long>)
    ensures ParseIds(ShowAll(ids)) == Ok(ids)
  {
    forall i | 0 <= i < |ids| ensures ParseLong(ShowAll(ids)[i]) == Ok(ids[i]) {
      ParseLongShow(ids[i]);
    }
    ParseIdsMeaning(ShowAll(ids));
    var r := ParseIds(ShowAll(ids));
    assert r.Ok?;
    assert r.value == ids;
  }

  /** The fields of a written line, when the brand holds no comma. */
  lemma BrandTextFields(v: BrandIndexValue)
    requires v.brand.Some? && ',' !in v.brand.value
    requires v.brand.value != "" || v.caps != []
    ensures JavaSplit(BrandText(v), ',') == [v.brand.value] + ShowAll(v.caps)
  {
    var s := v.brand.value;
    var ids := ShowAll(v.caps);
    ShowAllFreeOfSeparator(v.caps);
    if v.caps == [] {
      assert BrandText(v) == s + [','] + "";
      RawSplitAfterPiece(s, ',', "");
      assert BrandText(v)[|s|] == ',';
      assert RawSplit(BrandText(v), ',') == [s, ""];
      assert [s, ""][..1] == [s];
      assert DropTrailingEmpty([s]) == [s];
      assert DropTrailingEmpty([s, ""]) == [s];
    } else {
      var fs := [s] + ids;
      assert fs[1..] == ids;
      assert FreeOf(fs, ',') by {
        forall i | 0 <= i < |fs| ensures ',' !in fs[i] {
          if i > 0 { assert fs[i] == ids[i - 1]; }
        }
      }
      JavaSplitJoin(fs, ',');
    }
  }

  /** Reading back what was written gives the same entry, for a brand that
      is lower case and holds no comma. The empty id list is included,
      because `split` drops the empty field after the trailing ",";
      only an empty brand with no ids does not come back. */
  lemma DecodeBrandText(v: BrandIndexValue)
    requires v.brand.Some? && IsLowerCase(v.brand.value) && ',' !in v.brand.value
    requires v.brand.value != "" || v.caps != []
    ensures DecodeBrandLine(BrandText(v)) == Ok(v)
  {
    var fs := [v.brand.value] + ShowAll(v.caps);
    BrandTextFields(v);
    LowerFacts(v.brand.value);
    assert fs[1..] == ShowAll(v.caps);
    ParseShowAll(v.caps);
  }

  /** An entry with no ids is written as the brand and a comma. */
  lemma BrandTextWithoutIds(brand: string)
    ensures BrandText(BrandIndexValue(Some(brand), [])) == brand + ","
  {
  }
}
