/** The contents of the three files behind `CapRepositoryFileBasedImpl`
    (`repository/filebased/CapRepositoryFileBasedImpl.java`), and the
    brand table it keeps in memory, as values:

    - the index file, one "id,position" line per index entry, which
      `persistIndex` writes and `readLinesIndex` reads;
    - the brand file, one `brandIndexToText` line per brand entry, which
      `persistBrandIndex` writes, `handleBrandIndex` appends to and
      `readLinesBrandIndex` reads;
    - the cap file, one line per cap, read line by line with a decoder.

    Reading skips blank lines and, for the index, lines it cannot parse. */
module RepositoryFiles {
  import opened Common
  import opened Text
  import opened BPlusTreeModel
  import opened BrandIndexModel
  import opened BrandIndexFormatter

  // ---------------------------------------------------------------------
  // Reading a file line by line
  // ---------------------------------------------------------------------

  /** `reader.lines().filter(line -> !line.isBlank()).map(f)` collected
      into a list: every non-blank line decoded in order; the first line
      that does not decode stops the read with its error. */
  function DecodeLines<T>(f: string -> Result<T>, lines: seq<string>): (r: Result<seq<T>>)
    decreases |lines|
  {
    if lines == [] then Ok([])
    else
      var init :- DecodeLines(f, lines[..|lines| - 1]);
      var line := lines[|lines| - 1];
      if IsBlank(line) then Ok(init)
      else
        var x :- f(line);
        Ok(init + [x])
  }

  /** Once a prefix of the lines fails to decode, the whole does, with the
      same error. */
  lemma {:induction false} DecodeLinesStops<T>(f: string -> Result<T>, lines: seq<string>, i: nat)
    requires i <= |lines| && DecodeLines(f, lines[..i]).Err?
    ensures DecodeLines(f, lines) == DecodeLines(f, lines[..i])
    decreases |lines| - i
  {
    if i < |lines| {
      var init := lines[..|lines| - 1];
      assert init[..i] == lines[..i];
      DecodeLinesStops(f, init, i);
    } else {
      assert lines[..i] == lines;
    }
  }

  /** Decoding one more line: a blank line adds nothing, another line adds
      its value or stops the read with its error. */
  lemma DecodeNext<T>(f: string -> Result<T>, lines: seq<string>, i: nat, xs: seq<T>)
    requires i < |lines| && DecodeLines(f, lines[..i]) == Ok(xs)
    ensures DecodeLines(f, lines[..i + 1]) ==
      if IsBlank(lines[i]) then Ok(xs)
      else if f(lines[i]).Err? then Err(f(lines[i]).error)
      else Ok(xs + [f(lines[i]).value])
  {
    assert lines[..i + 1][..i] == lines[..i];
  }

  /** A file that a line was appended to decodes as the old file's lines
      followed by that line: a blank line that the append may leave before
      it is skipped. */
  lemma DecodeAppendedLine<T>(f: string -> Result<T>, file: string, line: string)
    requires '\n' !in line && line != ""
    ensures DecodeLines(f, Lines(file + "\n" + line)) == DecodeLines(f, Lines(file) + [line])
  {
    LinesAppend(file, line);
    var ls := Lines(file);
    if Lines(file + "\n" + line) == ls + ["", line] {
      DecodeSkipsBlank(f, ls);
      assert ls + ["", line] == (ls + [""]) + [line];
      DecodeSameThen(f, ls + [""], ls, line);
    }
  }

  /** A trailing empty line decodes to nothing. */
  lemma DecodeSkipsBlank<T>(f: string -> Result<T>, ls: seq<string>)
    ensures DecodeLines(f, ls + [""]) == DecodeLines(f, ls)
  {
    assert (ls + [""])[..|ls|] == ls;
    assert IsBlank("");
  }

  /** Lines that decode alike still do with one more line after them. */
  lemma DecodeSameThen<T>(f: string -> Result<T>, a: seq<string>, b: seq<string>, line: string)
    requires DecodeLines(f, a) == DecodeLines(f, b)
    ensures DecodeLines(f, a + [line]) == DecodeLines(f, b + [line])
  {
    assert (a + [line])[..|a|] == a;
    assert (b + [line])[..|b|] == b;
  }

  // ---------------------------------------------------------------------
  // The index file
  // ---------------------------------------------------------------------

  /** The line `persistIndex` writes for an entry: the key, ",", the
      position. */
  function EntryLine(e: Entry): string {
    ShowInt(e.key) + "," + ShowInt(e.value)
  }

  function IndexLines(es: seq<Entry>): (r: seq<string>)
    ensures |r| == |es|
    ensures forall i :: 0 <= i < |es| ==> r[i] == EntryLine(es[i])
  {
    seq(|es|, i requires 0 <= i < |es| => EntryLine(es[i]))
  }

  /** The index file `persistIndex` writes: the entries' lines, in the
      order given, with "\n" between consecutive ones and none after the
      last. */
  function IndexText(es: seq<Entry>): string {
    Join(IndexLines(es), '\n')
  }

  /** What `readLinesIndex` makes of one line: an entry when the line
      splits into exactly two comma fields that, trimmed, parse as a
      `long` and an `int`; nothing otherwise. */
  function ParseIndexEntry(line: string): (r: Option<Entry>)
    ensures r.Some? ==> |JavaSplit(line, ',')| == 2
    ensures r.Some? ==> InLongRange(r.value.key) && InIntRange(r.value.value)
  {
    var values := JavaSplit(line, ',');
    if |values| != 2 then None
    else
      match (ParseLong(Trim(values[0])), ParseInt(Trim(values[1])))
      case (Ok(id), Ok(position)) => Some(Entry(id, position))
      case _ => None
  }

  /** The entries `readLinesIndex` inserts, in file order: one per
      non-blank line that parses. */
  function ParsedEntries(lines: seq<string>): seq<Entry>
    decreases |lines|
  {
    if lines == [] then []
    else
      var line := lines[|lines| - 1];
      var e := if IsBlank(line) then None else ParseIndexEntry(line);
      ParsedEntries(lines[..|lines| - 1]) + (if e.Some? then [e.value] else [])
  }

  /** Reading one more line adds the entry it parses to, if any. */
  lemma ParsedNext(lines: seq<string>, i: nat)
    requires i < |lines|
    ensures var e := if IsBlank(lines[i]) then None else ParseIndexEntry(lines[i]);
      ParsedEntries(lines[..i + 1]) == ParsedEntries(lines[..i]) + (if e.Some? then [e.value] else [])
  {
    assert lines[..i + 1][..i] == lines[..i];
  }

  function IndexFileEntries(file: string): seq<Entry> {
    ParsedEntries(Lines(file))
  }

  /** Entries whose key is a `long` and whose position is an `int`. */
  predicate Storable(es: seq<Entry>) {
    forall i :: 0 <= i < |es| ==> InLongRange(es[i].key) && InIntRange(es[i].value)
  }

  /** An entry's line splits into the two printed numbers. */
  lemma EntryLineSplits(e: Entry)
    ensures JavaSplit(EntryLine(e), ',') == [ShowInt(e.key), ShowInt(e.value)]
  {
    var fs := [ShowInt(e.key), ShowInt(e.value)];
    ShowIntChars(e.key);
    ShowIntChars(e.value);
    assert FreeOf(fs, ',');
    assert Join(fs[1..], ',') == fs[1];
    assert Join(fs, ',') == EntryLine(e);
    JavaSplitJoin(fs, ',');
  }

  /** An entry's line is neither blank nor holds a terminator, and it
      parses back to the entry. */
  lemma EntryLineParses(e: Entry)
    requires InLongRange(e.key) && InIntRange(e.value)
    ensures ParseIndexEntry(EntryLine(e)) == Some(e)
    ensures '\n' !in EntryLine(e) && !IsBlank(EntryLine(e))
  {
    EntryLineSplits(e);
    EntryLineChars(e);
    ShowIntChars(e.key);
    ShowIntChars(e.value);
    ParseLongShow(e.key);
    ParseIntShow(e.value);
  }

  lemma EntryLineChars(e: Entry)
    ensures '\n' !in EntryLine(e) && !IsBlank(EntryLine(e))
  {
    var a, b := ShowInt(e.key), ShowInt(e.value);
    ShowIntChars(e.key);
    ShowIntChars(e.value);
    var t := EntryLine(e);
    assert t[0] == a[0];
    assert !IsWhitespace(t[0]);
    assert forall i :: 0 <= i < |t| ==> t[i] == (if i < |a| then a[i] else if i == |a| then ',' else b[i - |a| - 1]);
  }

  /** Lines that each parse to their entry are read as those entries. */
  lemma {:induction false} ParsedEntriesOf(ls: seq<string>, es: seq<Entry>)
    requires |ls| == |es|
    requires forall i :: 0 <= i < |ls| ==> !IsBlank(ls[i]) && ParseIndexEntry(ls[i]) == Some(es[i])
    ensures ParsedEntries(ls) == es
    decreases |ls|
  {
    if ls != [] {
      var n := |ls| - 1;
      ParsedEntriesOf(ls[..n], es[..n]);
      assert ParseIndexEntry(ls[n]) == Some(es[n]);
      assert ParsedEntries(ls) == ParsedEntries(ls[..n]) + [es[n]];
      SplitLast(es);
    }
  }

  /** Reading the index file that `persistIndex` wrote gives back the
      entries it wrote, in the same order. */
  lemma IndexTextRoundTrip(es: seq<Entry>)
    requires Storable(es)
    ensures IndexFileEntries(IndexText(es)) == es
  {
    var ls := IndexLines(es);
    forall i | 0 <= i < |es|
      ensures '\n' !in ls[i] && !IsBlank(ls[i]) && ParseIndexEntry(ls[i]) == Some(es[i])
    {
      EntryLineParses(es[i]);
    }
    assert FreeOf(ls, '\n');
    LinesJoin(ls);
    ParsedEntriesOf(ls, es);
  }

  // ---------------------------------------------------------------------
  // The brand file
  // ---------------------------------------------------------------------

  function BrandLines(vs: seq<BrandIndexValue>): (r: seq<string>)
    ensures |r| == |vs|
    ensures forall i :: 0 <= i < |vs| ==> r[i] == BrandText(vs[i])
  {
    seq(|vs|, i requires 0 <= i < |vs| => BrandText(vs[i]))
  }

  /** The brand file `persistBrandIndex` writes: one line per entry, with
      "\n" between consecutive ones and none after the last. */
  function BrandFileText(vs: seq<BrandIndexValue>): string {
    Join(BrandLines(vs), '\n')
  }

  /** An entry whose line reads back as the entry: a lower-case brand
      without comma or line terminator, and not both an empty brand and no
      ids. */
  predicate Writable(v: BrandIndexValue) {
    && v.brand.Some? && IsLowerCase(v.brand.value)
    && ',' !in v.brand.value && '\n' !in v.brand.value
    && (v.brand.value != "" || v.caps != [])
  }

  /** The line of a writable entry holds no terminator, is not blank and
      decodes to the entry. */
  lemma BrandLineReads(v: BrandIndexValue)
    requires Writable(v)
    ensures '\n' !in BrandText(v) && !IsBlank(BrandText(v))
    ensures DecodeBrandLine(BrandText(v)) == Ok(v)
  {
    var b := v.brand.value;
    var t := BrandText(v);
    DecodeBrandText(v);
    assert t[|b|] == ',';
    ShowAllFreeOfSeparator(v.caps);
    var ws := ShowAll(v.caps);
    forall i | 0 <= i < |ws| ensures '\n' !in ws[i] {
      ShowIntChars(v.caps[i]);
    }
    BrandTextNoTerminator(b, ws);
  }

  lemma BrandTextNoTerminator(b: string, ws: seq<string>)
    requires '\n' !in b && FreeOf(ws, '\n')
    ensures '\n' !in BrandName(Some(b)) + "," + Join(ws, ',')
  {
    JoinFree(ws, ',', '\n');
  }

  /** A joined text holds a character only if a piece or the separator
      does. */
  lemma {:induction false} JoinFree(fs: seq<string>, sep: char, c: char)
    requires FreeOf(fs, c) && sep != c
    ensures c !in Join(fs, sep)
    decreases |fs|
  {
    if |fs| >= 2 {
      JoinFree(fs[1..], sep, c);
      assert c !in fs[0];
    } else if |fs| == 1 {
      assert c !in fs[0];
    }
  }

  /** Lines that each decode to their value are read as those values. */
  lemma {:induction false} DecodeLinesOf<T>(f: string -> Result<T>, ls: seq<string>, xs: seq<T>)
    requires |ls| == |xs|
    requires forall i :: 0 <= i < |ls| ==> !IsBlank(ls[i]) && f(ls[i]) == Ok(xs[i])
    ensures DecodeLines(f, ls) == Ok(xs)
    decreases |ls|
  {
    if ls != [] {
      DecodeLinesOf(f, ls[..|ls| - 1], xs[..|xs| - 1]);
      assert xs[..|xs| - 1] + [xs[|xs| - 1]] == xs;
    }
  }

  /** Reading the brand file that `persistBrandIndex` wrote gives back the
      entries, when each of them is writable. */
  lemma BrandFileRoundTrip(vs: seq<BrandIndexValue>)
    requires forall i :: 0 <= i < |vs| ==> Writable(vs[i])
    ensures DecodeLines(DecodeBrandLine, Lines(BrandFileText(vs))) == Ok(vs)
  {
    var ls := BrandLines(vs);
    forall i | 0 <= i < |vs|
      ensures '\n' !in ls[i] && !IsBlank(ls[i]) && DecodeBrandLine(ls[i]) == Ok(vs[i])
    {
      BrandLineReads(vs[i]);
    }
    assert FreeOf(ls, '\n');
    if vs != [] {
      assert !IsBlank(ls[|ls| - 1]);
    }
    LinesJoin(ls);
    DecodeLinesOf(DecodeBrandLine, ls, vs);
  }

  /** Appending the line of a writable entry to a brand file that reads as
      some entries makes it read as those entries and the new one. */
  lemma BrandFileAppend(file: string, vs: seq<BrandIndexValue>, v: BrandIndexValue)
    requires DecodeLines(DecodeBrandLine, Lines(file)) == Ok(vs)
    requires Writable(v)
    ensures DecodeLines(DecodeBrandLine, Lines(file + "\n" + BrandText(v))) == Ok(vs + [v])
  {
    var line := BrandText(v);
    BrandLineReads(v);
    DecodeAppendedLine(DecodeBrandLine, file, line);
    var ls := Lines(file) + [line];
    assert ls[..|ls| - 1] == Lines(file);
  }

  /** A line that decodes to `v`, appended after a terminator to a file
      that decodes to `vs`, makes the file decode to `vs + [v]`. */
  lemma AppendDecodes<T>(f: string -> Result<T>, file: string, vs: seq<T>, line: string, v: T)
    requires DecodeLines(f, Lines(file)) == Ok(vs)
    requires '\n' !in line && !IsBlank(line) && f(line) == Ok(v)
    ensures DecodeLines(f, Lines(file + "\n" + line)) == Ok(vs + [v])
  {
    DecodeAppendedLine(f, file, line);
    var ls := Lines(file) + [line];
    assert ls[..|ls| - 1] == Lines(file);
  }

  // ---------------------------------------------------------------------
  // The brand table
  // ---------------------------------------------------------------------

  /** `index.getBrand().equalsIgnoreCase(brand)`. */
  predicate Matches(v: BrandIndexValue, brand: string) {
    v.brand.Some? && EqualsIgnoreCase(v.brand.value, brand)
  }

  /** `filter(...).findFirst()`: the first entry whose brand equals `brand`
      ignoring case. */
  function FindBrand(vs: seq<BrandIndexValue>, brand: string): (r: Option<nat>)
    ensures r.Some? ==> r.value < |vs| && Matches(vs[r.value], brand)
    ensures r.Some? ==> forall j :: 0 <= j < r.value ==> !Matches(vs[j], brand)
    ensures r.None? ==> forall j :: 0 <= j < |vs| ==> !Matches(vs[j], brand)
    decreases |vs|
  {
    if vs == [] then None
    else if Matches(vs[0], brand) then Some(0)
    else
      match FindBrand(vs[1..], brand)
      case None => None
      case Some(p) => Some(p + 1)
  }

  /** What `handleBrandIndex` does to the brand table: a brand no entry
      has gets a new entry, lower-cased, holding the id; otherwise the id
      goes at the end of the first matching entry. */
  function AddToBrand(vs: seq<BrandIndexValue>, brand: string, id: Long): seq<BrandIndexValue> {
    match FindBrand(vs, brand)
    case None => vs + [BrandIndexValue(Some(Lower(Lower(brand))), [id])]
    case Some(p) => vs[p := vs[p].(caps := vs[p].caps + [id])]
  }

  /** After the update exactly one entry has changed or been added: it
      matches the brand and ends with the id; every other entry is as it
      was. */
  lemma AddToBrandRecords(vs: seq<BrandIndexValue>, brand: string, id: Long)
    ensures var ws := AddToBrand(vs, brand, id);
      && |ws| == |vs| + (if FindBrand(vs, brand).None? then 1 else 0)
      && (exists p :: 0 <= p < |ws| && Matches(ws[p], brand) && ws[p].caps != [] && ws[p].caps[|ws[p].caps| - 1] == id
                      && forall j :: 0 <= j < |vs| && j != p ==> ws[j] == vs[j])
  {
    var ws := AddToBrand(vs, brand, id);
    LowerFacts(brand);
    match FindBrand(vs, brand)
    case None =>
      assert Matches(ws[|vs|], brand);
    case Some(p) =>
      assert Matches(ws[p], brand);
  }

  /** No two entries have brands that are equal ignoring case. */
  predicate DistinctBrands(vs: seq<BrandIndexValue>) {
    forall i, j :: 0 <= i < j < |vs| && vs[i].brand.Some? && vs[j].brand.Some? ==>
      Lower(vs[i].brand.value) != Lower(vs[j].brand.value)
  }

  /** `handleBrandIndex` adds an entry only for a brand that has none, so it
      never makes two entries for one brand. */
  lemma AddToBrandDistinct(vs: seq<BrandIndexValue>, brand: string, id: Long)
    requires DistinctBrands(vs)
    ensures DistinctBrands(AddToBrand(vs, brand, id))
  {
    LowerFacts(brand);
  }

  /** The updated table stays writable when the old one was and the brand
      holds no comma or terminator; the new entry's brand is non-empty
      because it holds an id. */
  lemma AddToBrandWritable(vs: seq<BrandIndexValue>, brand: string, id: Long)
    requires forall i :: 0 <= i < |vs| ==> Writable(vs[i])
    requires ',' !in brand && '\n' !in brand
    ensures forall i :: 0 <= i < |AddToBrand(vs, brand, id)| ==> Writable(AddToBrand(vs, brand, id)[i])
  {
    var ws := AddToBrand(vs, brand, id);
    LowerFacts(brand);
    LowerFacts(Lower(brand));
    var b := Lower(Lower(brand));
    forall i | 0 <= i < |b| ensures b[i] != ',' && b[i] != '\n' {
      assert Lower(brand)[i] == LowerChar(brand[i]);
      assert brand[i] != ',' && brand[i] != '\n';
    }
  }

  /** The brand file after `handleBrandIndex` has recorded `id` under
      `brand`: for a brand no entry matches, the new entry's line appended;
      otherwise the whole updated table written again. */
  function BrandFileAfter(file: string, vs: seq<BrandIndexValue>, brand: string, id: Long): string {
    if FindBrand(vs, brand).None? then file + "\n" + BrandText(BrandIndexValue(Some(Lower(Lower(brand))), [id]))
    else BrandFileText(AddToBrand(vs, brand, id))
  }

  /** Whichever branch `handleBrandIndex` takes, a brand file that read as
      the table before reads as the updated table after: the appended line
      of a new entry, or the whole file written again, reads back. */
  lemma BrandFileStaysInSync(file: string, vs: seq<BrandIndexValue>, brand: string, id: Long)
    requires DecodeLines(DecodeBrandLine, Lines(file)) == Ok(vs)
    requires forall i :: 0 <= i < |vs| ==> Writable(vs[i])
    requires ',' !in brand && '\n' !in brand
    ensures FindBrand(vs, brand).None? ==>
      DecodeLines(DecodeBrandLine, Lines(file + "\n" + BrandText(BrandIndexValue(Some(Lower(Lower(brand))), [id]))))
      == Ok(AddToBrand(vs, brand, id))
    ensures FindBrand(vs, brand).Some? ==>
      DecodeLines(DecodeBrandLine, Lines(BrandFileText(AddToBrand(vs, brand, id)))) == Ok(AddToBrand(vs, brand, id))
  {
    AddToBrandWritable(vs, brand, id);
    var ws := AddToBrand(vs, brand, id);
    if FindBrand(vs, brand).None? {
      BrandFileAppend(file, vs, ws[|vs|]);
    } else {
      BrandFileRoundTrip(ws);
    }
  }
}
