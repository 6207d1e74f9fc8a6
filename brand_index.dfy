/** `model/index/BrandIndex.java`: one entry of the brand table, a brand
    name and the ids of the caps of that brand in the order they were
    saved. `appendCap` grows the id list in place; the nested builder sets
    the brand, lower-cased, and the list. */
module BrandIndexModel {
  import opened Common
  import opened Text

  /** The two fields of an entry, as a value. A brand of `None` is the
      builder's initial null. */
  datatype BrandIndexValue = BrandIndexValue(brand: Option<string>, caps: seq<Long>)

  class BrandIndex {
    var brand: Option<string>
    var caps: seq<Long>

    function View(): BrandIndexValue
      reads this
    {
      BrandIndexValue(brand, caps)
    }

    /** The private constructor, which `BrandIndexBuilder.build` calls. */
    constructor (brand: Option<string>, caps: seq<Long>)
      ensures View() == BrandIndexValue(brand, caps)
    {
      this.brand := brand;
      this.caps := caps;
    }

    /** `equals`: false for null, otherwise brand and id list both agree. */
    predicate Equals(o: BrandIndex?)
      reads this, o
    {
      o != null && brand == o.brand && caps == o.caps
    }

    /** `appendCap`: the id goes at the end of the list; the answer of
        `List.add` is always true. */
    method AppendCap(id: Long) returns (added: bool)
      modifies this
      ensures added
      ensures caps == old(caps) + [id] && brand == old(brand)
    {
      caps := caps + [id];
      added := true;
    }
  }

  /** Two entries are equal exactly when their values are. */
  lemma EqualsIsSameValue(a: BrandIndex, b: BrandIndex)
    ensures a.Equals(b) <==> a.View() == b.View()
  {
  }

  /** `BrandIndex.BrandIndexBuilder`. */
  class BrandIndexBuilder {
    var brand: Option<string>
    var caps: seq<Long>

    /** The entry `build()` would make now. */
    function Pending(): BrandIndexValue
      reads this
    {
      BrandIndexValue(brand, caps)
    }

    /** A null brand and an empty id list. */
    constructor ()
      ensures Pending() == BrandIndexValue(None, [])
    {
      brand := None;
      caps := [];
    }

    /** `setBrand` keeps the brand lower-cased. */
    method SetBrand(brand: string) returns (self: BrandIndexBuilder)
      modifies this
      ensures self == this
      ensures Pending() == old(Pending()).(brand := Some(Lower(brand)))
      ensures IsLowerCase(this.brand.value)
    {
      LowerFacts(brand);
      this.brand := Some(Lower(brand));
      self := this;
    }

    /** `setCaps` replaces the id list wholesale. */
    method SetCaps(caps: seq<Long>) returns (self: BrandIndexBuilder)
      modifies this
      ensures self == this
      ensures Pending() == old(Pending()).(caps := caps)
    {
      this.caps := caps;
      self := this;
    }

    method Build() returns (entry: BrandIndex)
      ensures fresh(entry) && entry.View() == Pending()
    {
      entry := new BrandIndex(brand, caps);
    }
  }
}
