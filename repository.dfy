/** `repository/filebased/CapRepositoryFileBasedImpl.java`: the cap store.
    It keeps three structures in memory, loaded lazily from three files:
    `capList`, the caps in the order they were saved, read from the cap
    file; `capIndex`, a B+ tree of order 4 from cap id to position in
    `capList`, read from the index file; and `brandList`, one entry per
    brand with the ids of its caps, read from the brand file. `save`
    appends to all three and writes the files back. */
module CapRepository {
  import opened Common
  import opened Text
  import opened BPlusTreeModel
  import opened BPlusTreeQueries
  import opened BPlusTreeIndex
  import opened CapModel
  import opened CapFormatter
  import opened BrandIndexModel
  import opened BrandIndexFormatter
  import opened RepositoryFiles

  /** The entry the first branch of `handleBrandIndex` builds: the
      builder lower-cases the already lower-cased brand, and the cap's id is
      appended to the empty list. */
  method NewBrandEntry(brand: string, id: Long) returns (entry: BrandIndex)
    ensures fresh(entry)
    ensures entry.View() == BrandIndexValue(Some(Lower(Lower(brand))), [id])
  {
    var builder := new BrandIndexBuilder();
    builder := builder.SetBrand(Lower(brand));
    entry := builder.Build();
    var _ := entry.AppendCap(id);
  }

  /** The line `save` appends to the cap file reads back as the cap, so a
      cap file that read as the list before reads as the list and the cap
      after, for a decoder that inverts `capToText` on that line and fields
      without line terminators. */
  lemma CapFileStaysInSync(decode: string -> Result<CapValue>, file: string, vs: seq<CapValue>, v: CapValue)
    requires DecodeLines(decode, Lines(file)) == Ok(vs)
    requires decode(CapToText(v)) == Ok(v) && '\n' !in CapToText(v)
    ensures DecodeLines(decode, Lines(file + "\n" + CapToText(v))) == Ok(vs + [v])
  {
    var line := CapToText(v);
    JoinHasSeparator(CapFields(v), ',');
    var k :| 0 <= k < |line| && line[k] == ',';
    assert !IsWhitespace(line[k]);
    AppendDecodes(decode, file, vs, line, v);
  }

  /** The three files. */
  datatype FileId = Heap | IndexFile | BrandIndexFile

  /** The values of a list of caps. */
  function Views(cs: seq<Cap>): (r: seq<CapValue>)
    reads cs
    ensures |r| == |cs|
    ensures forall i :: 0 <= i < |cs| ==> r[i] == cs[i].View()
  {
    seq(|cs|, i reads cs requires 0 <= i < |cs| => cs[i].View())
  }

  /** The values of a list of brand entries: `Views` for the brand table.
      `Cap` and `BrandIndex` are unrelated classes, each with its own `View`,
      and a generic version would need a function argument whose `reads`
      clause covers the objects, so the two tables keep one function each. */
  function BrandViews(bs: seq<BrandIndex>): (r: seq<BrandIndexValue>)
    reads bs
    ensures |r| == |bs|
    ensures forall i :: 0 <= i < |bs| ==> r[i] == bs[i].View()
  {
    seq(|bs|, i reads bs requires 0 <= i < |bs| => bs[i].View())
  }

  lemma ViewsSnoc(cs: seq<Cap>, c: Cap)
    ensures Views(cs + [c]) == Views(cs) + [c.View()]
  {
    assert (cs + [c])[..|cs|] == cs;
  }

  lemma BrandViewsSnoc(bs: seq<BrandIndex>, b: BrandIndex)
    ensures BrandViews(bs + [b]) == BrandViews(bs) + [b.View()]
  {
    assert (bs + [b])[..|bs|] == bs;
  }

  /** No object occurs twice in the list. */
  predicate NoAlias<T(==)>(s: seq<T>) {
    forall i, j :: 0 <= i < j < |s| ==> s[i] != s[j]
  }

  lemma NoAliasSnoc<T>(s: seq<T>, x: T)
    requires NoAlias(s) && x !in s
    ensures NoAlias(s + [x])
  {
  }

  /** Every position the index holds is a valid position in a list of `n`
      caps. */
  predicate PositionsValid(index: map<int, int>, n: int) {
    forall k :: k in index ==> 0 <= index[k] < n
  }

  /** `findById` on an index and a cap list: a null id is refused by the
      tree's `search`; an id the index does not hold is not found; a
      position outside the list is index corruption. */
  function LookupIn(index: map<int, int>, caps: seq<Cap>, id: Option<Long>): (r: Result<Cap>)
    ensures r.Ok? <==> id.Some? && id.value in index && 0 <= index[id.value] < |caps|
    ensures r.Ok? ==> r.value == caps[index[id.value]]
    ensures r == Err(IndexCorruption) <==> id.Some? && id.value in index && !(0 <= index[id.value] < |caps|)
  {
    if id.None? then Err(IllegalArgument)
    else if id.value !in index then Err(CapNotFound)
    else
      var p := index[id.value];
      if 0 <= p < |caps| then Ok(caps[p]) else Err(IndexCorruption)
  }

  /** With valid positions, every indexed id is found. */
  lemma LookupValid(index: map<int, int>, caps: seq<Cap>, id: Long)
    requires PositionsValid(index, |caps|)
    ensures LookupIn(index, caps, Some(id)).Ok? <==> id in index
  {
  }

  /** `capIds.stream().map(this::findById)`: the cap of each id in order;
      the first id that is not found stops it with its error. */
  function LookupAllIn(index: map<int, int>, caps: seq<Cap>, ids: seq<Long>): (r: Result<seq<Cap>>)
    ensures r.Ok? <==> forall i :: 0 <= i < |ids| ==> LookupIn(index, caps, Some(ids[i])).Ok?
    ensures r.Ok? ==> |r.value| == |ids|
    ensures r.Ok? ==> forall i :: 0 <= i < |ids| ==> r.value[i] == LookupIn(index, caps, Some(ids[i])).value
    decreases |ids|
  {
    if ids == [] then Ok([])
    else
      var init :- LookupAllIn(index, caps, ids[..|ids| - 1]);
      var c :- LookupIn(index, caps, Some(ids[|ids| - 1]));
      Ok(init + [c])
  }

  /** `findByBrand` on a loaded index, cap list and brand table: a brand
      that no entry matches, ignoring case, is not found; otherwise the
      caps of the ids of the first matching entry, in order. */
  function BrandLookupIn(index: map<int, int>, caps: seq<Cap>, brands: seq<BrandIndexValue>, brand: string): Result<seq<Cap>>
  {
    match FindBrand(brands, brand)
    case None => Err(BrandNotFound)
    case Some(p) => LookupAllIn(index, caps, brands[p].caps)
  }

  /** `rangeEntries.stream().map(entry -> capList.get(entry.getValue()))`:
      the cap at each position in order; a position outside the list stops
      it with an IndexOutOfBoundsException. */
  function CapsAt(es: seq<Entry>, caps: seq<Cap>): (r: Result<seq<Cap>>)
    ensures r.Ok? <==> forall i :: 0 <= i < |es| ==> 0 <= es[i].value < |caps|
    ensures r.Err? ==> r.error == IndexOutOfBounds
    ensures r.Ok? ==> |r.value| == |es| && forall i :: 0 <= i < |es| ==> r.value[i] == caps[es[i].value]
    decreases |es|
  {
    if es == [] then Ok([])
    else
      var init :- CapsAt(es[..|es| - 1], caps);
      var p := es[|es| - 1].value;
      if 0 <= p < |caps| then Ok(init + [caps[p]]) else Err(IndexOutOfBounds)
  }

  /** The first id that is not found decides the outcome of the whole
      lookup. */
  lemma {:induction false} LookupAllStops(index: map<int, int>, caps: seq<Cap>, ids: seq<Long>, i: nat)
    requires i <= |ids| && LookupAllIn(index, caps, ids[..i]).Err?
    ensures LookupAllIn(index, caps, ids) == LookupAllIn(index, caps, ids[..i])
    decreases |ids| - i
  {
    if i < |ids| {
      assert ids[..i + 1][..i] == ids[..i];
      LookupAllStops(index, caps, ids, i + 1);
    } else {
      assert ids[..i] == ids;
    }
  }

  /** The first position outside the list decides the outcome of the whole
      mapping. */
  lemma {:induction false} CapsAtStops(es: seq<Entry>, caps: seq<Cap>, i: nat)
    requires i <= |es| && CapsAt(es[..i], caps).Err?
    ensures CapsAt(es, caps) == CapsAt(es[..i], caps)
    decreases |es| - i
  {
    if i < |es| {
      assert es[..i + 1][..i] == es[..i];
      CapsAtStops(es, caps, i + 1);
    } else {
      assert es[..i] == es;
    }
  }

  /** Every map that loading the index can build holds only pairs the
      index file states, a later line winning over an earlier one. */
  predicate SubMap(m: map<int, int>, n: map<int, int>) {
    forall k :: k in m ==> k in n && m[k] == n[k]
  }

  /** Whether an insert stores its pair or loses it, the tree stays
      within the file's map extended by the same pair. */
  lemma SubMapInsert(m: map<int, int>, m': map<int, int>, n: map<int, int>, k: int, v: int)
    requires SubMap(m, n)
    requires m' == m[k := v] || (m' == m && k !in m')
    ensures SubMap(m', n[k := v])
  {
  }

  /** `new BPlusTree<>(4)`: an empty tree of order 4. */
  method NewIndexTree() returns (tree: BPlusTree)
    ensures fresh(tree) && tree.Valid() && tree.order == 4 && Packed(tree.State())
    ensures Entries(tree.State()) == [] && Contents(tree.State()) == map[]
  {
    tree := new BPlusTree(4);
    PackedEmpty(4);
  }

  /** One `capIndex.insert(id, position)` of `readLinesIndex`: the pair is
      stored, or lost when its leaf is full, so a tree within the pairs
      read so far stays within them once this pair is read too. */
  method InsertEntry(tree: BPlusTree, e: Entry, ghost read: seq<Entry>)
    requires tree.Valid() && Packed(tree.State())
    requires SubMap(Contents(tree.State()), MapOf(read))
    modifies tree
    ensures tree.Valid() && Packed(tree.State())
    ensures SubMap(Contents(tree.State()), MapOf(read + [e]))
  {
    ghost var m := Contents(tree.State());
    var _ := tree.Insert(Some(e.key), e.value);
    assert (read + [e])[..|read|] == read;
    SubMapInsert(m, Contents(tree.State()), MapOf(read), e.key, e.value);
  }

  /** The loop of `persistIndex`: "\n" before every line but the first,
      then the entry's "id,position". */
  method IndexContent(allEntries: seq<Entry>) returns (content: string)
    ensures content == IndexText(allEntries)
  {
    ghost var ls := IndexLines(allEntries);
    forall j | 0 <= j < |ls|
      ensures ls[j] != ""
    {
      assert ls[j][|ShowInt(allEntries[j].key)|] == ',';
    }
    content := "";
    var i := 0;
    while i < |allEntries|
      invariant 0 <= i <= |allEntries|
      invariant content == Join(ls[..i], '\n')
    {
      var line := EntryLine(allEntries[i]);
      JoinNext(ls, i, '\n', content);
      if |content| > 0 {
        content := content + "\n";
      }
      content := content + line;
      i := i + 1;
    }
    assert ls[..i] == ls;
  }

  /** The loop of `persistBrandIndex`: "\n" before every line but the
      first, then the entry's line. */
  method BrandContent(brandList: seq<BrandIndex>) returns (content: string)
    ensures content == BrandFileText(BrandViews(brandList))
  {
    ghost var vs := BrandViews(brandList);
    ghost var ls := BrandLines(vs);
    forall j | 0 <= j < |ls|
      ensures ls[j] != ""
    {
      assert ls[j][|BrandName(vs[j].brand)|] == ',';
    }
    content := "";
    var i := 0;
    while i < |brandList|
      invariant 0 <= i <= |brandList|
      invariant content == Join(ls[..i], '\n')
    {
      var line := BrandIndexToText(brandList[i]);
      JoinNext(ls, i, '\n', content);
      if |content| > 0 {
        content := content + "\n";
      }
      content := content + line;
      i := i + 1;
    }
    assert ls[..i] == ls;
  }

  class CapRepositoryFileBased {
    /** `CAP_FORMATTER::TextToCap`, which the source calls but does not
        define: a parameter of the model. */
    const decodeCap: string -> Result<CapValue>
    var heap: string
    var indexFile: string
    var brandIndexFile: string
    var capList: seq<Cap>
    var capIndex: BPlusTree
    var brandList: seq<BrandIndex>

    /** The cap index is a valid B+ tree of order 4 with no empty leaf
        beside the root. */
    ghost predicate IndexValid()
      reads this`capIndex, capIndex
    {
      capIndex.Valid() && capIndex.order == 4 && Packed(capIndex.State())
    }

    /** Every brand entry has a brand, and no entry occurs twice. */
    predicate BrandsValid()
      reads this`brandList, brandList
    {
      && (forall i :: 0 <= i < |brandList| ==> brandList[i].brand.Some?)
      && NoAlias(brandList)
    }

    ghost predicate Valid()
      reads this`capIndex, capIndex, this`brandList, brandList
    {
      IndexValid() && BrandsValid()
    }

    /** All three structures hold something, so `initialize` reads no
        file. */
    ghost predicate Loaded()
      reads this`capList, this`capIndex, capIndex, this`brandList
    {
      capList != [] && Entries(capIndex.State()) != [] && brandList != []
    }

    /** The map the cap index stands for, from id to position. */
    ghost function Index(): map<int, int>
      reads this`capIndex, capIndex
    {
      Contents(capIndex.State())
    }

    /** What the cap file and the brand file decode to. */
    function CapFile(): Result<seq<CapValue>>
      reads this`heap
    {
      DecodeLines(decodeCap, Lines(heap))
    }

    function BrandFile(): Result<seq<BrandIndexValue>>
      reads this`brandIndexFile
    {
      DecodeLines(DecodeBrandLine, Lines(brandIndexFile))
    }

    /** The field initialisers: empty list and table, an empty tree of
        order 4, and the three files. */
    constructor (decodeCap: string -> Result<CapValue>, heap: string, indexFile: string, brandIndexFile: string)
      ensures Valid() && fresh(capIndex)
      ensures this.decodeCap == decodeCap && this.heap == heap && this.indexFile == indexFile
      ensures this.brandIndexFile == brandIndexFile
      ensures capList == [] && brandList == [] && Entries(capIndex.State()) == []
    {
      this.decodeCap := decodeCap;
      this.heap := heap;
      this.indexFile := indexFile;
      this.brandIndexFile := brandIndexFile;
      capList := [];
      brandList := [];
      var tree := NewIndexTree();
      capIndex := tree;
    }

    // -------------------------------------------------------------------
    // The files
    // -------------------------------------------------------------------

    /** `appendLine`: a line terminator, then the line, at the end of the
        file. */
    method AppendLine(line: string, f: FileId)
      modifies this`heap, this`indexFile, this`brandIndexFile
      ensures heap == if f == Heap then old(heap) + "\n" + line else old(heap)
      ensures indexFile == if f == IndexFile then old(indexFile) + "\n" + line else old(indexFile)
      ensures brandIndexFile == if f == BrandIndexFile then old(brandIndexFile) + "\n" + line else old(brandIndexFile)
    {
      match f
      case Heap => heap := heap + "\n" + line;
      case IndexFile => indexFile := indexFile + "\n" + line;
      case BrandIndexFile => brandIndexFile := brandIndexFile + "\n" + line;
    }

    /** `overwrite`: the file's content is replaced. */
    method Overwrite(f: FileId, content: string)
      modifies this`heap, this`indexFile, this`brandIndexFile
      ensures heap == if f == Heap then content else old(heap)
      ensures indexFile == if f == IndexFile then content else old(indexFile)
      ensures brandIndexFile == if f == BrandIndexFile then content else old(brandIndexFile)
    {
      match f
      case Heap => heap := content;
      case IndexFile => indexFile := content;
      case BrandIndexFile => brandIndexFile := content;
    }

    /** `readLinesCap`: a fresh cap for each non-blank line, decoded in
        order; the first line that does not decode stops the read. */
    method ReadLinesCap(file: string) returns (r: Result<seq<Cap>>)
      ensures r.Ok? <==> DecodeLines(decodeCap, Lines(file)).Ok?
      ensures r.Err? ==> r.error == DecodeLines(decodeCap, Lines(file)).error
      ensures r.Ok? ==> Views(r.value) == DecodeLines(decodeCap, Lines(file)).value
    {
      var lines := Lines(file);
      var caps: seq<Cap> := [];
      var i := 0;
      while i < |lines|
        invariant 0 <= i <= |lines|
        invariant DecodeLines(decodeCap, lines[..i]) == Ok(Views(caps))
      {
        var line := lines[i];
        DecodeNext(decodeCap, lines, i, Views(caps));
        if !IsBlank(line) {
          var v := decodeCap(line);
          if v.Err? {
            DecodeLinesStops(decodeCap, lines, i + 1);
            return Err(v.error);
          }
          var cap := new Cap(v.value);
          ViewsSnoc(caps, cap);
          caps := caps + [cap];
        }
        i := i + 1;
      }
      assert lines[..i] == lines;
      return Ok(caps);
    }

    /** One non-blank line of `readLinesBrandIndex`: the fresh entry
        `textToBrandIndex` reads from it goes at the end of the entries
        read so far. */
    static method ReadBrandLine(line: string, entries: seq<BrandIndex>, ghost views: seq<BrandIndexValue>)
      returns (r: Result<seq<BrandIndex>>)
      requires NoAlias(entries) && forall j :: 0 <= j < |entries| ==> entries[j].brand.Some?
      requires BrandViews(entries) == views
      ensures DecodeBrandLine(line).Err? ==> r == Err(DecodeBrandLine(line).error)
      ensures DecodeBrandLine(line).Ok? ==> r.Ok? && |r.value| == |entries| + 1
      ensures r.Ok? ==> r.value[..|entries|] == entries && fresh(r.value[|entries|])
      ensures r.Ok? ==> BrandViews(r.value) == views + [DecodeBrandLine(line).value]
      ensures r.Ok? ==> NoAlias(r.value) && forall j :: 0 <= j < |r.value| ==> r.value[j].brand.Some?
    {
      var entry := TextToBrandIndex(line);
      if entry.Err? {
        return Err(entry.error);
      }
      NoAliasSnoc(entries, entry.value);
      BrandViewsSnoc(entries, entry.value);
      r := Ok(entries + [entry.value]);
      assert r.value[..|entries|] == entries;
    }

    /** `readLinesBrandIndex`: a fresh entry for each non-blank line, read
        by `textToBrandIndex` in order; the first line that does not read
        stops the read. */
    static method ReadLinesBrandIndex(file: string) returns (r: Result<seq<BrandIndex>>)
      ensures var d := DecodeLines(DecodeBrandLine, Lines(file));
        && (r.Ok? <==> d.Ok?)
        && (r.Err? ==> r.error == d.error)
        && (r.Ok? ==> BrandViews(r.value) == d.value)
      ensures r.Ok? ==> forall i :: 0 <= i < |r.value| ==> r.value[i].brand.Some?
      ensures r.Ok? ==> NoAlias(r.value)
      ensures r.Ok? ==> forall i :: 0 <= i < |r.value| ==> fresh(r.value[i])
    {
      var lines := Lines(file);
      var entries: seq<BrandIndex> := [];
      var i := 0;
      while i < |lines|
        invariant 0 <= i <= |lines|
        invariant DecodeLines(DecodeBrandLine, lines[..i]) == Ok(BrandViews(entries))
        invariant forall j :: 0 <= j < |entries| ==> entries[j].brand.Some?
        invariant NoAlias(entries)
        invariant forall j :: 0 <= j < |entries| ==> fresh(entries[j])
      {
        var line := lines[i];
        ghost var views := BrandViews(entries);
        DecodeNext(DecodeBrandLine, lines, i, views);
        if !IsBlank(line) {
          var next := ReadBrandLine(line, entries, views);
          if next.Err? {
            DecodeLinesStops(DecodeBrandLine, lines, i + 1);
            return Err(next.error);
          }
          entries := next.value;
        }
        i := i + 1;
      }
      assert lines[..i] == lines;
      return Ok(entries);
    }

    /** `readLinesIndex`: a fresh tree of order 4, and for each non-blank
        line that splits into two fields which parse, an `insert`. Lines
        that do not parse are skipped. Because an insert into a full leaf
        is lost, the tree holds some of the file's pairs, never a pair the
        file does not state. */
    static method ReadLinesIndex(file: string) returns (tree: BPlusTree)
      ensures fresh(tree) && tree.Valid() && tree.order == 4 && Packed(tree.State())
      ensures SubMap(Contents(tree.State()), MapOf(IndexFileEntries(file)))
    {
      var lines := Lines(file);
      tree := NewIndexTree();
      var i := 0;
      while i < |lines|
        invariant 0 <= i <= |lines|
        invariant tree.Valid() && tree.order == 4 && Packed(tree.State())
        invariant SubMap(Contents(tree.State()), MapOf(ParsedEntries(lines[..i])))
      {
        var line := lines[i];
        ParsedNext(lines, i);
        var entry := if IsBlank(line) then None else ParseIndexEntry(line);
        if entry.Some? {
          InsertEntry(tree, entry.value, ParsedEntries(lines[..i]));
          assert ParsedEntries(lines[..i + 1]) == ParsedEntries(lines[..i]) + [entry.value];
        } else {
          assert ParsedEntries(lines[..i + 1]) == ParsedEntries(lines[..i]);
        }
        i := i + 1;
      }
      assert lines[..i] == lines;
    }

    // -------------------------------------------------------------------
    // Lazy loading
    // -------------------------------------------------------------------

    /** What reading the caps in `initialize` ends with: the cap file's
        error when the list is empty and the file does not decode. */
    function CapsOutcome(): Result<()>
      reads this`capList, this`heap
    {
      if capList == [] && CapFile().Err? then Err(CapFile().error) else Ok(())
    }

    /** What reading the brands in `initialize` ends with: the brand
        file's error when the table is empty and the file does not decode. */
    function BrandsOutcome(): Result<()>
      reads this`brandList, this`brandIndexFile
    {
      if brandList == [] && BrandFile().Err? then Err(BrandFile().error) else Ok(())
    }

    /** What `initialize` ends with: the error of the first structure that
        is empty and whose file does not read, or success. The index file
        always reads, as lines that do not parse are skipped. */
    function InitOutcome(): Result<()>
      reads this`capList, this`heap, this`brandList, this`brandIndexFile
    {
      if CapsOutcome().Err? then CapsOutcome() else BrandsOutcome()
    }

    /** The first step of `initialize`: an empty cap list is read again
        from the cap file. A read that fails leaves the list as it was. */
    method LoadCaps() returns (r: Result<()>)
      modifies this`capList
      ensures r == old(CapsOutcome())
      ensures old(capList) != [] || r.Err? ==> capList == old(capList)
      ensures old(capList) == [] && r.Ok? ==> Views(capList) == CapFile().value
    {
      r := Ok(());
      if capList == [] {
        var caps := ReadLinesCap(heap);
        if caps.Err? {
          return Err(caps.error);
        }
        capList := caps.value;
      }
    }

    /** The second step of `initialize`: an empty index is read again from
        the index file. */
    method LoadIndex()
      requires IndexValid()
      modifies this`capIndex
      ensures IndexValid()
      ensures old(Entries(capIndex.State())) == [] ==>
        fresh(capIndex) && SubMap(Index(), MapOf(IndexFileEntries(indexFile)))
      ensures old(Entries(capIndex.State())) != [] ==> capIndex == old(capIndex)
    {
      var empty := capIndex.IsEmpty();
      if empty {
        var tree := ReadLinesIndex(indexFile);
        capIndex := tree;
      }
    }

    /** The third step of `initialize`: an empty brand table is read again
        from the brand file. A read that fails leaves the table empty. */
    method LoadBrands() returns (r: Result<()>)
      requires BrandsValid()
      modifies this`brandList
      ensures BrandsValid()
      ensures r == old(BrandsOutcome())
      ensures old(brandList) != [] || r.Err? ==> brandList == old(brandList)
      ensures old(brandList) == [] && r.Ok? ==> BrandViews(brandList) == BrandFile().value
      ensures old(brandList) == [] ==> forall i :: 0 <= i < |brandList| ==> fresh(brandList[i])
    {
      r := Ok(());
      if brandList == [] {
        var brands := ReadLinesBrandIndex(brandIndexFile);
        if brands.Err? {
          return Err(brands.error);
        }
        brandList := brands.value;
      }
    }

    /** The second and third steps of `initialize`, once the caps are
        read: the index, then the brand table, each read again from its file
        when empty, as `LoadIndex` and `LoadBrands` state. */
    method LoadRest() returns (r: Result<()>)
      requires Valid()
      modifies this`capIndex, this`brandList
      ensures Valid() && r == old(BrandsOutcome())
      ensures old(Entries(capIndex.State())) != [] ==> capIndex == old(capIndex)
      ensures capIndex == old(capIndex) || fresh(capIndex)
      ensures old(Entries(capIndex.State())) == [] ==> SubMap(Index(), MapOf(IndexFileEntries(indexFile)))
      ensures old(brandList) != [] || r.Err? ==> brandList == old(brandList)
      ensures old(brandList) == [] && r.Ok? ==> BrandViews(brandList) == BrandFile().value
      ensures old(brandList) == [] ==> forall i :: 0 <= i < |brandList| ==> fresh(brandList[i])
    {
      LoadIndex();
      r := LoadBrands();
    }

    /** `initialize`: each structure that is empty is read again from its
        file, in the order caps, index, brands, as `LoadCaps`, `LoadIndex`
        and `LoadBrands` state; a read that fails stops it. A structure that
        was not empty is kept, and the files are not written. */
    method Initialize() returns (r: Result<()>)
      requires Valid()
      modifies this`capList, this`capIndex, this`brandList
      ensures Valid() && r == old(InitOutcome())
      ensures capIndex == old(capIndex) || fresh(capIndex)
      ensures old(brandList) == [] ==> forall i :: 0 <= i < |brandList| ==> fresh(brandList[i])
      ensures old(capList) != [] ==> capList == old(capList)
      ensures old(Entries(capIndex.State())) != [] ==> capIndex == old(capIndex)
      ensures old(brandList) != [] ==> brandList == old(brandList)
      ensures old(capList) == [] && r.Ok? ==> Views(capList) == CapFile().value
      ensures old(Entries(capIndex.State())) == [] ==> SubMap(Index(), MapOf(IndexFileEntries(indexFile)))
      ensures old(brandList) == [] && r.Ok? ==> BrandViews(brandList) == BrandFile().value
      ensures r.Err? ==> brandList == old(brandList)
    {
      r := LoadCaps();
      if r.Ok? {
        r := LoadRest();
      }
    }

    // -------------------------------------------------------------------
    // Persistence
    // -------------------------------------------------------------------

    /** `persistIndex`: the index file becomes the tree's pairs in key
        order, one "id,position" line each. */
    method PersistIndex()
      requires IndexValid()
      modifies this`heap, this`indexFile, this`brandIndexFile
      ensures indexFile == IndexText(Entries(capIndex.State()))
      ensures heap == old(heap) && brandIndexFile == old(brandIndexFile)
    {
      var allEntries := capIndex.GetAll();
      var content := IndexContent(allEntries);
      Overwrite(IndexFile, content);
    }

    /** `persistBrandIndex`: the brand file becomes the lines of the
        entries, in table order. */
    method PersistBrandIndex()
      modifies this`heap, this`indexFile, this`brandIndexFile
      ensures brandIndexFile == BrandFileText(BrandViews(brandList))
      ensures heap == old(heap) && indexFile == old(indexFile)
    {
      var content := BrandContent(brandList);
      Overwrite(BrandIndexFile, content);
    }

    // -------------------------------------------------------------------
    // The brand table
    // -------------------------------------------------------------------

    /** `existBrand`: some entry's brand equals `brand` ignoring case. */
    predicate ExistBrand(brand: string)
      reads this`brandList, brandList
    {
      exists i :: 0 <= i < |brandList| && Matches(brandList[i].View(), brand)
    }

    /** The first branch of `handleBrandIndex`: a new entry, built with
        the brand lower-cased (the builder lower-cases it once more) and
        holding the cap's id, goes at the end of the table, and its line at
        the end of the brand file. */
    method AddBrandEntry(brand: string, id: Long)
      requires BrandsValid()
      modifies this`brandList, this`heap, this`indexFile, this`brandIndexFile
      ensures BrandsValid()
      ensures BrandViews(brandList) == old(BrandViews(brandList)) + [BrandIndexValue(Some(Lower(Lower(brand))), [id])]
      ensures brandIndexFile == old(brandIndexFile) + "\n" + BrandText(BrandIndexValue(Some(Lower(Lower(brand))), [id]))
      ensures heap == old(heap) && indexFile == old(indexFile)
    {
      var brandIndex := NewBrandEntry(brand, id);
      NoAliasSnoc(brandList, brandIndex);
      BrandViewsSnoc(brandList, brandIndex);
      brandList := brandList + [brandIndex];
      var line := BrandIndexToText(brandIndex);
      AppendLine(line, BrandIndexFile);
    }

    /** The second branch of `handleBrandIndex`, before the brand file is
        written again: the id goes at the end of entry `p`, and no other
        entry changes, as none is the same object. */
    method ExtendBrandEntry(p: nat, id: Long)
      requires BrandsValid() && p < |brandList|
      modifies brandList[p]
      ensures BrandsValid()
      ensures BrandViews(brandList) == old(BrandViews(brandList))[p := old(brandList[p].View()).(caps := old(brandList[p].caps) + [id])]
    {
      ghost var vs := BrandViews(brandList);
      var _ := brandList[p].AppendCap(id);
      forall j | 0 <= j < |brandList| && j != p
        ensures brandList[j].View() == vs[j]
      {
        assert brandList[j] != brandList[p];
      }
    }

    /** `handleBrandIndex`: a brand with no entry gets a new entry holding
        the cap's id, appended as one line to the brand file; otherwise the
        id is appended to the first matching entry and the whole brand file
        is written again. */
    method HandleBrandIndex(cap: Cap)
      requires BrandsValid()
      modifies this`brandList, this`heap, this`indexFile, this`brandIndexFile, brandList
      ensures BrandsValid()
      ensures BrandViews(brandList) == AddToBrand(old(BrandViews(brandList)), cap.brand, cap.id)
      ensures brandIndexFile == BrandFileAfter(old(brandIndexFile), old(BrandViews(brandList)), cap.brand, cap.id)
      ensures heap == old(heap) && indexFile == old(indexFile)
    {
      ghost var vs := BrandViews(brandList);
      var brandExists := ExistBrand(cap.brand);
      if !brandExists {
        assert FindBrand(vs, cap.brand).None?;
        AddBrandEntry(cap.brand, cap.id);
      } else {
        var p := FindBrand(BrandViews(brandList), cap.brand);
        ExtendBrandEntry(p.value, cap.id);
        PersistBrandIndex();
      }
    }

    // -------------------------------------------------------------------
    // Saving a cap
    // -------------------------------------------------------------------

    /** Lines 103-108 of `save`: the cap goes at the end of the list, and
        its id with its position into the index, where the pair is stored,
        or lost when its leaf is full. Positions that were within the list
        stay within it. */
    method AddCap(cap: Cap)
      requires IndexValid() && cap.id !in Index()
      modifies this`capList, capIndex
      ensures IndexValid()
      ensures capList == old(capList) + [cap]
      ensures Index() == if old(Fits(capIndex.State(), cap.id)) then old(Index())[cap.id := |old(capList)|] else old(Index())
      ensures old(PositionsValid(Index(), |capList|)) ==> PositionsValid(Index(), |capList|)
    {
      var newPosition := |capList|;
      capList := capList + [cap];
      var _ := capIndex.Insert(Some(cap.id), newPosition);
    }

    /** Lines 114-115 of `save`: the cap's line at the end of the cap
        file, then the index file written again. */
    method PersistCap(cap: Cap)
      requires IndexValid()
      modifies this`heap, this`indexFile, this`brandIndexFile
      ensures heap == old(heap) + "\n" + CapToText(cap.View())
      ensures indexFile == IndexText(Entries(capIndex.State()))
      ensures brandIndexFile == old(brandIndexFile)
    {
      AppendLine(CapToText(cap.View()), Heap);
      PersistIndex();
    }

    /** Lines 111-115 of `save`: the cap's id goes into the brand table
        as `HandleBrandIndex` states, then the files are written as
        `PersistCap` states. */
    method Record(cap: Cap)
      requires Valid()
      modifies this`brandList, brandList, this`heap, this`indexFile, this`brandIndexFile
      ensures Valid()
      ensures BrandViews(brandList) == AddToBrand(old(BrandViews(brandList)), cap.brand, cap.id)
      ensures heap == old(heap) + "\n" + CapToText(cap.View())
      ensures indexFile == IndexText(Entries(capIndex.State()))
      ensures brandIndexFile == BrandFileAfter(old(brandIndexFile), old(BrandViews(brandList)), cap.brand, cap.id)
    {
      HandleBrandIndex(cap);
      PersistCap(cap);
    }

    /** Lines 103-115 of `save`, for an id the index does not hold: the
        cap is added as `AddCap` states, then recorded as `Record`
        states. */
    method Append(cap: Cap)
      requires Valid() && cap.id !in Index()
      modifies this`capList, capIndex, this`brandList, brandList, this`heap, this`indexFile, this`brandIndexFile
      ensures Valid()
      ensures capList == old(capList) + [cap]
      ensures Index() == if old(Fits(capIndex.State(), cap.id)) then old(Index())[cap.id := |old(capList)|] else old(Index())
      ensures old(PositionsValid(Index(), |capList|)) ==> PositionsValid(Index(), |capList|)
      ensures BrandViews(brandList) == AddToBrand(old(BrandViews(brandList)), cap.brand, cap.id)
      ensures heap == old(heap) + "\n" + CapToText(cap.View())
      ensures indexFile == IndexText(Entries(capIndex.State()))
      ensures brandIndexFile == BrandFileAfter(old(brandIndexFile), old(BrandViews(brandList)), cap.brand, cap.id)
    {
      ghost var views := BrandViews(brandList);
      AddCap(cap);
      assert BrandViews(brandList) == views;
      Record(cap);
    }

    /** `save` after `initialize`: an id the index already holds is a
        duplicate and changes nothing; any other cap is appended as
        `Append` states. */
    method Store(cap: Cap) returns (r: Result<Cap>)
      requires Valid()
      modifies this`capList, capIndex, this`brandList, brandList, this`heap, this`indexFile, this`brandIndexFile
      ensures Valid()
      ensures r == if old(cap.id in Index()) then Err(DuplicateId) else Ok(cap)
      ensures r.Err? ==> capList == old(capList) && Index() == old(Index())
      ensures r.Err? ==> BrandViews(brandList) == old(BrandViews(brandList))
      ensures r.Err? ==> heap == old(heap) && indexFile == old(indexFile) && brandIndexFile == old(brandIndexFile)
      ensures r.Ok? ==> capList == old(capList) + [cap]
      ensures r.Ok? ==> Index() == if old(Fits(capIndex.State(), cap.id)) then old(Index())[cap.id := |old(capList)|] else old(Index())
      ensures r.Ok? ==> BrandViews(brandList) == AddToBrand(old(BrandViews(brandList)), cap.brand, cap.id)
      ensures r.Ok? ==> heap == old(heap) + "\n" + CapToText(cap.View())
      ensures r.Ok? ==> indexFile == IndexText(Entries(capIndex.State()))
      ensures r.Ok? ==> brandIndexFile == BrandFileAfter(old(brandIndexFile), old(BrandViews(brandList)), cap.brand, cap.id)
      ensures old(PositionsValid(Index(), |capList|)) ==> PositionsValid(Index(), |capList|)
    {
      var existing := capIndex.Search(Some(cap.id));
      if existing != Ok(None) {
        return Err(DuplicateId);
      }
      Append(cap);
      r := Ok(cap);
    }

    /** `save`: an id that is not positive is refused before anything is
        read, and nothing changes. Otherwise `initialize` runs first, and its
        error is the answer; then the cap is stored as `Store` states. When
        nothing needed loading, every effect of `Store` on the state before
        the call follows. */
    method Save(cap: Cap) returns (r: Result<Cap>)
      requires Valid()
      modifies this`capList, this`capIndex, capIndex, this`brandList, brandList
      modifies this`heap, this`indexFile, this`brandIndexFile
      ensures Valid()
      ensures cap.id <= 0 ==> r == Err(IllegalArgument)
      ensures cap.id <= 0 ==> capList == old(capList) && capIndex == old(capIndex) && Index() == old(Index())
      ensures cap.id <= 0 ==> brandList == old(brandList) && BrandViews(brandList) == old(BrandViews(brandList))
      ensures cap.id > 0 && old(InitOutcome()).Err? ==> r == Err(old(InitOutcome()).error)
      ensures cap.id > 0 && old(InitOutcome()).Ok? ==> r == Ok(cap) || r == Err(DuplicateId)
      ensures r.Err? ==> heap == old(heap) && indexFile == old(indexFile) && brandIndexFile == old(brandIndexFile)
      ensures r.Ok? ==> heap == old(heap) + "\n" + CapToText(cap.View())
      ensures r.Ok? ==> indexFile == IndexText(Entries(capIndex.State()))
      ensures r.Ok? && old(capList) != [] ==> capList == old(capList) + [cap]
      ensures cap.id > 0 && old(Loaded()) ==>
        r == if old(cap.id in Index()) then Err(DuplicateId) else Ok(cap)
      ensures r.Ok? && old(Loaded()) ==>
        Index() == if old(Fits(capIndex.State(), cap.id)) then old(Index())[cap.id := |old(capList)|] else old(Index())
      ensures r.Ok? && old(Loaded()) ==>
        BrandViews(brandList) == AddToBrand(old(BrandViews(brandList)), cap.brand, cap.id)
      ensures r.Ok? && old(Loaded()) ==>
        brandIndexFile == BrandFileAfter(old(brandIndexFile), old(BrandViews(brandList)), cap.brand, cap.id)
      ensures r.Err? && cap.id > 0 && old(Loaded()) ==>
        capList == old(capList) && Index() == old(Index()) && BrandViews(brandList) == old(BrandViews(brandList))
      ensures old(Loaded()) && old(PositionsValid(Index(), |capList|)) ==> PositionsValid(Index(), |capList|)
    {
      if cap.id <= 0 {
        return Err(IllegalArgument);
      }
      ghost var loaded := Loaded();
      ghost var index := Index();
      ghost var views := BrandViews(brandList);
      ghost var fits := Fits(capIndex.State(), cap.id);
      var init := Initialize();
      if init.Err? {
        return Err(init.error);
      }
      if loaded {
        assert Index() == index && BrandViews(brandList) == views;
        assert Fits(capIndex.State(), cap.id) == fits;
      }
      r := Store(cap);
    }

    // -------------------------------------------------------------------
    // Lookups
    // -------------------------------------------------------------------

    /** `findAll`: after `initialize`, a copy of the cap list. */
    method FindAll() returns (r: Result<seq<Cap>>)
      requires Valid()
      modifies this`capList, this`capIndex, this`brandList
      ensures Valid()
      ensures old(InitOutcome()).Err? ==> r == Err(old(InitOutcome()).error)
      ensures old(InitOutcome()).Ok? ==> r == Ok(capList)
      ensures old(capList) != [] ==> capList == old(capList)
      ensures old(Entries(capIndex.State())) != [] ==> capIndex == old(capIndex)
      ensures old(brandList) != [] ==> brandList == old(brandList)
      ensures old(capList) == [] && old(InitOutcome()).Ok? ==> Views(capList) == CapFile().value
      ensures old(Entries(capIndex.State())) == [] ==> SubMap(Index(), MapOf(IndexFileEntries(indexFile)))
      ensures old(brandList) == [] && old(InitOutcome()).Ok? ==> BrandViews(brandList) == BrandFile().value
      ensures old(Loaded()) ==> r == Ok(old(capList))
    {
      var init := Initialize();
      if init.Err? {
        return Err(init.error);
      }
      r := Ok(capList);
    }

    /** The lookup of `findById` once the structures are loaded: the tree's
        `search`, then the position checked against the list. */
    method Find(id: Option<Long>) returns (r: Result<Cap>)
      requires IndexValid()
      ensures r == LookupIn(Index(), capList, id)
    {
      var position := capIndex.Search(id);
      if position.Err? {
        return Err(position.error);
      }
      if position.value.None? {
        return Err(CapNotFound);
      }
      var p := position.value.value;
      if p < 0 || p >= |capList| {
        return Err(IndexCorruption);
      }
      r := Ok(capList[p]);
    }

    /** `findById`: `initialize`, whose error is the answer, then the
        lookup `Find` states. */
    method FindById(id: Option<Long>) returns (r: Result<Cap>)
      requires Valid()
      modifies this`capList, this`capIndex, this`brandList
      ensures Valid()
      ensures old(InitOutcome()).Err? ==> r == Err(old(InitOutcome()).error)
      ensures old(InitOutcome()).Ok? ==> r == LookupIn(Index(), capList, id)
      ensures old(Loaded()) ==> r == old(LookupIn(Index(), capList, id))
      ensures old(capList) != [] ==> capList == old(capList)
      ensures old(Entries(capIndex.State())) != [] ==> capIndex == old(capIndex)
      ensures old(brandList) != [] ==> brandList == old(brandList)
      ensures old(capList) == [] && old(InitOutcome()).Ok? ==> Views(capList) == CapFile().value
      ensures old(Entries(capIndex.State())) == [] ==> SubMap(Index(), MapOf(IndexFileEntries(indexFile)))
      ensures old(brandList) == [] && old(InitOutcome()).Ok? ==> BrandViews(brandList) == BrandFile().value
    {
      var init := Initialize();
      if init.Err? {
        return Err(init.error);
      }
      r := Find(id);
    }

    /** `capIds.stream().map(this::findById)` once the structures are
        loaded: the cap of each id in order, stopping at the first id that
        is not found. */
    method FindAllOf(ids: seq<Long>) returns (r: Result<seq<Cap>>)
      requires IndexValid()
      ensures r == LookupAllIn(Index(), capList, ids)
    {
      var caps: seq<Cap> := [];
      var i := 0;
      while i < |ids|
        invariant 0 <= i <= |ids|
        invariant LookupAllIn(Index(), capList, ids[..i]) == Ok(caps)
      {
        var c := Find(Some(ids[i]));
        assert ids[..i + 1][..i] == ids[..i];
        if c.Err? {
          LookupAllStops(Index(), capList, ids, i + 1);
          return Err(c.error);
        }
        caps := caps + [c.value];
        i := i + 1;
      }
      assert ids[..i] == ids;
      r := Ok(caps);
    }

    /** `findByBrand`: `initialize`, whose error is the answer; a brand
        that no entry matches, ignoring case, is not found; otherwise the
        caps of the ids of the first matching entry, in order. */
    method FindByBrand(brand: string) returns (r: Result<seq<Cap>>)
      requires Valid()
      modifies this`capList, this`capIndex, this`brandList
      ensures Valid()
      ensures old(InitOutcome()).Err? ==> r == Err(old(InitOutcome()).error)
      ensures old(InitOutcome()).Ok? ==> r == BrandLookupIn(Index(), capList, BrandViews(brandList), brand)
      ensures old(capList) != [] ==> capList == old(capList)
      ensures old(Entries(capIndex.State())) != [] ==> capIndex == old(capIndex)
      ensures old(brandList) != [] ==> brandList == old(brandList)
      ensures old(capList) == [] && old(InitOutcome()).Ok? ==> Views(capList) == CapFile().value
      ensures old(Entries(capIndex.State())) == [] ==> SubMap(Index(), MapOf(IndexFileEntries(indexFile)))
      ensures old(brandList) == [] && old(InitOutcome()).Ok? ==> BrandViews(brandList) == BrandFile().value
    {
      var init := Initialize();
      if init.Err? {
        return Err(init.error);
      }
      r := LookupBrand(brand);
    }

    /** The lookup of `findByBrand` once the structures are loaded: a
        brand that no entry matches, ignoring case, is not found; otherwise
        the caps of the ids of the first matching entry, in order. */
    method LookupBrand(brand: string) returns (r: Result<seq<Cap>>)
      requires Valid()
      ensures !ExistBrand(brand) ==> r == Err(BrandNotFound)
      ensures r == BrandLookupIn(Index(), capList, BrandViews(brandList), brand)
    {
      var brandExists := ExistBrand(brand);
      if !brandExists {
        return Err(BrandNotFound);
      }
      var p := FindBrand(BrandViews(brandList), brand);
      r := FindAllOf(brandList[p.value].caps);
    }

    /** The mapping of `findByIdRange` once the structures are loaded: the
        cap at each entry's position, in order. */
    method CapsAtPositions(es: seq<Entry>) returns (r: Result<seq<Cap>>)
      ensures r == CapsAt(es, capList)
    {
      var caps: seq<Cap> := [];
      var i := 0;
      while i < |es|
        invariant 0 <= i <= |es|
        invariant CapsAt(es[..i], capList) == Ok(caps)
      {
        var p := es[i].value;
        assert es[..i + 1][..i] == es[..i];
        if p < 0 || p >= |capList| {
          CapsAtStops(es, capList, i + 1);
          return Err(IndexOutOfBounds);
        }
        caps := caps + [capList[p]];
        i := i + 1;
      }
      assert es[..i] == es;
      r := Ok(caps);
    }

    /** `findByIdRange`: `initialize`, whose error is the answer, then the
        tree's `rangeQuery` and the cap at each position it gives. */
    method FindByIdRange(startId: Long, endId: Long) returns (r: Result<seq<Cap>>)
      requires Valid()
      modifies this`capList, this`capIndex, this`brandList
      ensures Valid()
      ensures old(InitOutcome()).Err? ==> r == Err(old(InitOutcome()).error)
      ensures old(InitOutcome()).Ok? ==> r == CapsAt(InRange(Entries(capIndex.State()), startId, endId), capList)
      ensures old(capList) != [] ==> capList == old(capList)
      ensures old(Entries(capIndex.State())) != [] ==> capIndex == old(capIndex)
      ensures old(brandList) != [] ==> brandList == old(brandList)
      ensures old(capList) == [] && old(InitOutcome()).Ok? ==> Views(capList) == CapFile().value
      ensures old(Entries(capIndex.State())) == [] ==> SubMap(Index(), MapOf(IndexFileEntries(indexFile)))
      ensures old(brandList) == [] && old(InitOutcome()).Ok? ==> BrandViews(brandList) == BrandFile().value
      ensures old(Loaded()) ==> r == old(CapsAt(InRange(Entries(capIndex.State()), startId, endId), capList))
    {
      ghost var loaded := Loaded();
      ghost var entries := Entries(capIndex.State());
      var init := Initialize();
      if init.Err? {
        return Err(init.error);
      }
      if loaded {
        assert Entries(capIndex.State()) == entries;
      }
      r := RangeLookup(startId, endId);
    }

    /** The lookup of `findByIdRange` once the structures are loaded: the
        tree's `rangeQuery`, then the cap at each position it gives. */
    method RangeLookup(startId: Long, endId: Long) returns (r: Result<seq<Cap>>)
      requires IndexValid()
      ensures r == CapsAt(InRange(Entries(capIndex.State()), startId, endId), capList)
    {
      var rangeEntries := capIndex.RangeQuery(startId, endId);
      r := CapsAtPositions(rangeEntries);
    }

    /** `getCapCount`: `initialize`, whose error is the answer, then the
        tree's `size`, the number of ids the index holds. */
    method GetCapCount() returns (r: Result<int>)
      requires Valid()
      modifies this`capList, this`capIndex, this`brandList
      ensures Valid()
      ensures old(InitOutcome()).Err? ==> r == Err(old(InitOutcome()).error)
      ensures old(InitOutcome()).Ok? ==> r == Ok(|Index()|)
      ensures old(capList) != [] ==> capList == old(capList)
      ensures old(Entries(capIndex.State())) != [] ==> capIndex == old(capIndex)
      ensures old(brandList) != [] ==> brandList == old(brandList)
      ensures old(capList) == [] && old(InitOutcome()).Ok? ==> Views(capList) == CapFile().value
      ensures old(Entries(capIndex.State())) == [] ==> SubMap(Index(), MapOf(IndexFileEntries(indexFile)))
      ensures old(brandList) == [] && old(InitOutcome()).Ok? ==> BrandViews(brandList) == BrandFile().value
      ensures old(Loaded()) ==> r == Ok(|old(Index())|)
    {
      var init := Initialize();
      if init.Err? {
        return Err(init.error);
      }
      var count := capIndex.Size();
      r := Ok(count);
    }
  }
}
