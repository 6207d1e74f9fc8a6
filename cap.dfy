/** `model/Cap.java`: a cap for sale. Its setters change it in place, the
    nested `CapBuilder` creates it, and `equals` and `similar` compare two
    caps field by field. */
module CapModel {
  import opened Common
  import opened Text

  /** `CapSize`, printed by `toString()` as the constant's name. */
  datatype CapSize = Small | Medium | Large | ExtraLarge | OneSizeFitsAll {
    function Name(): (r: ConstName) {
      match this
      case Small => "SMALL"
      case Medium => "MEDIUM"
      case Large => "LARGE"
      case ExtraLarge => "EXTRA_LARGE"
      case OneSizeFitsAll => "ONE_SIZE_FITS_ALL"
    }
  }

  /** A constant of the `CapStyle` enum, known by its name. */
  datatype CapStyle = CapStyle(name: ConstName)

  /** A constant of the `Gender` enum, known by its name. */
  datatype Gender = Gender(name: ConstName)

  /** The nine fields of a cap, as a value. */
  datatype CapValue = CapValue(
    id: Long,
    brand: string,
    style: CapStyle,
    color: string,
    collaboration: Option<string>,
    price: real,
    size: CapSize,
    gender: Option<Gender>,
    stock: Int32)

  /** `similar`: every field but the id agrees. */
  predicate SimilarValues(a: CapValue, b: CapValue) {
    a.price == b.price && a.stock == b.stock && a.brand == b.brand && a.style == b.style
    && a.color == b.color && a.collaboration == b.collaboration && a.size == b.size
    && a.gender == b.gender
  }

  /** Two caps are similar exactly when giving one the other's id makes
      them equal. */
  lemma SimilarIsEqualUpToId(a: CapValue, b: CapValue)
    ensures SimilarValues(a, b) <==> a.(id := b.id) == b
  {
  }

  /** `similar` is reflexive and symmetric, and holds between equal caps. */
  lemma SimilarFacts(a: CapValue, b: CapValue)
    ensures SimilarValues(a, a)
    ensures SimilarValues(a, b) ==> SimilarValues(b, a)
    ensures a == b ==> SimilarValues(a, b)
  {
  }

  /** Changing the id of either side never changes `similar`. */
  lemma SimilarIgnoresId(a: CapValue, b: CapValue, id: Long)
    ensures SimilarValues(a.(id := id), b) == SimilarValues(a, b)
    ensures SimilarValues(a, b.(id := id)) == SimilarValues(a, b)
  {
  }

  class Cap {
    var id: Long
    var brand: string
    var style: CapStyle
    var color: string
    var collaboration: Option<string>
    var price: real
    var size: CapSize
    var gender: Option<Gender>
    var stock: Int32

    /** The fields of this cap now. */
    function View(): CapValue
      reads this
    {
      CapValue(id, brand, style, color, collaboration, price, size, gender, stock)
    }

    /** The private all-fields constructor, which `CapBuilder.build` calls. */
    constructor (v: CapValue)
      ensures View() == v
    {
      id := v.id;
      brand := v.brand;
      style := v.style;
      color := v.color;
      collaboration := v.collaboration;
      price := v.price;
      size := v.size;
      gender := v.gender;
      stock := v.stock;
    }

    /** `equals`: false for null, otherwise all nine fields agree. */
    predicate Equals(o: Cap?)
      reads this, o
    {
      o != null && View() == o.View()
    }

    /** `similar`: all fields but the id agree. */
    predicate Similar(o: Cap)
      reads this, o
    {
      SimilarValues(View(), o.View())
    }

    method SetId(id: Long)
      modifies this
      ensures View() == old(View()).(id := id)
    {
      this.id := id;
    }

    method SetBrand(brand: string)
      modifies this
      ensures View() == old(View()).(brand := brand)
    {
      this.brand := brand;
    }

    method SetStyle(style: CapStyle)
      modifies this
      ensures View() == old(View()).(style := style)
    {
      this.style := style;
    }

    method SetColor(color: string)
      modifies this
      ensures View() == old(View()).(color := color)
    {
      this.color := color;
    }

    method SetCollaboration(collaboration: Option<string>)
      modifies this
      ensures View() == old(View()).(collaboration := collaboration)
    {
      this.collaboration := collaboration;
    }

    method SetPrice(price: real)
      modifies this
      ensures View() == old(View()).(price := price)
    {
      this.price := price;
    }

    method SetSize(size: CapSize)
      modifies this
      ensures View() == old(View()).(size := size)
    {
      this.size := size;
    }

    method SetGender(gender: Option<Gender>)
      modifies this
      ensures View() == old(View()).(gender := gender)
    {
      this.gender := gender;
    }

    method SetStock(stock: Int32)
      modifies this
      ensures View() == old(View()).(stock := stock)
    {
      this.stock := stock;
    }
  }

  /** Equal caps are similar, and a cap is similar to itself. */
  lemma EqualsImpliesSimilar(a: Cap, b: Cap)
    ensures a.Equals(b) ==> a.Similar(b)
    ensures a.Similar(a)
  {
  }

  /** `Cap.CapBuilder`: the six required fields come with the constructor;
      id, collaboration and gender have setters and otherwise stay 0, null
      and null. */
  class CapBuilder {
    var id: Long
    var brand: string
    var style: CapStyle
    var color: string
    var collaboration: Option<string>
    var price: real
    var size: CapSize
    var gender: Option<Gender>
    var stock: Int32

    /** The cap `build()` would make now. */
    function Pending(): CapValue
      reads this
    {
      CapValue(id, brand, style, color, collaboration, price, size, gender, stock)
    }

    constructor (style: CapStyle, color: string, brand: string, price: real, size: CapSize, stock: Int32)
      ensures Pending() == CapValue(0, brand, style, color, None, price, size, None, stock)
    {
      this.brand := brand;
      this.style := style;
      this.color := color;
      this.price := price;
      this.stock := stock;
      this.size := size;
      this.id := 0;
      this.collaboration := None;
      this.gender := None;
    }

    method Build() returns (cap: Cap)
      ensures fresh(cap) && cap.View() == Pending()
    {
      cap := new Cap(CapValue(id, brand, style, color, collaboration, price, size, gender, stock));
    }

    method SetCollaboration(collaboration: Option<string>) returns (self: CapBuilder)
      modifies this
      ensures self == this && Pending() == old(Pending()).(collaboration := collaboration)
    {
      this.collaboration := collaboration;
      self := this;
    }

    method SetGender(gender: Option<Gender>) returns (self: CapBuilder)
      modifies this
      ensures self == this && Pending() == old(Pending()).(gender := gender)
    {
      this.gender := gender;
      self := this;
    }

    method SetId(id: Long) returns (self: CapBuilder)
      modifies this
      ensures self == this && Pending() == old(Pending()).(id := id)
    {
      this.id := id;
      self := this;
    }
  }
}
