/** `service/impl/CapServiceImplementation.java`: the service in front of
    the repository. `save` checks the cap's price, stock and colour, in
    that order, before handing the cap to the repository; `findAll` hands
    the call on unchanged. */
module CapService {
  import opened Common
  import opened Text
  import opened CapModel
  import opened CapFormatter
  import opened CapRepository
  import opened BPlusTreeModel
  import opened RepositoryFiles

  /** The guards of `save`: the first one that fails names the defect, and
      a cap that passes all three has none. */
  function Validate(c: CapValue): (r: Option<CapDefect>)
    ensures r.None? <==> c.price > 0.0 && c.stock > 0 && !IsBlank(c.color)
    ensures r == Some(BadPrice) <==> c.price <= 0.0
    ensures r == Some(BadStock) <==> c.price > 0.0 && c.stock <= 0
    ensures r == Some(BlankColor) <==> c.price > 0.0 && c.stock > 0 && IsBlank(c.color)
  {
    if c.price <= 0.0 then Some(BadPrice)
    else if c.stock <= 0 then Some(BadStock)
    else if IsBlank(c.color) then Some(BlankColor)
    else None
  }

  class CapServiceImplementation {
    const repository: CapRepositoryFileBased

    constructor (repository: CapRepositoryFileBased)
      ensures this.repository == repository
    {
      this.repository := repository;
    }

    /** `findAll`: what the repository's `findAll` answers. */
    method FindAll() returns (r: Result<seq<Cap>>)
      requires repository.Valid()
      modifies repository`capList, repository`capIndex, repository`brandList
      ensures repository.Valid()
      ensures old(repository.InitOutcome()).Err? ==> r == Err(old(repository.InitOutcome()).error)
      ensures old(repository.InitOutcome()).Ok? ==> r == Ok(repository.capList)
      ensures old(repository.capList) != [] ==> repository.capList == old(repository.capList)
      ensures old(Entries(repository.capIndex.State())) != [] ==> repository.capIndex == old(repository.capIndex)
      ensures old(repository.brandList) != [] ==> repository.brandList == old(repository.brandList)
      ensures old(repository.capList) == [] && old(repository.InitOutcome()).Ok? ==> Views(repository.capList) == repository.CapFile().value
      ensures old(Entries(repository.capIndex.State())) == [] ==> SubMap(repository.Index(), MapOf(IndexFileEntries(repository.indexFile)))
      ensures old(repository.brandList) == [] && old(repository.InitOutcome()).Ok? ==> BrandViews(repository.brandList) == repository.BrandFile().value
      ensures old(repository.Loaded()) ==> r == Ok(old(repository.capList))
    {
      r := repository.FindAll();
    }

    /** `save`: a cap that fails a guard is refused with that guard's
        defect and the repository is not touched; any other cap is saved
        by the repository, whose answer is the answer. */
    method Save(cap: Cap) returns (r: Result<Cap>)
      requires repository.Valid()
      modifies repository`capList, repository`capIndex, repository.capIndex, repository`brandList
      modifies repository.brandList, repository`heap, repository`indexFile, repository`brandIndexFile
      ensures repository.Valid()
      ensures Validate(cap.View()).Some? ==> r == Err(InvalidParametersCap(Validate(cap.View()).value))
      ensures Validate(cap.View()).Some? ==>
        unchanged(repository) && unchanged(repository.capIndex) && unchanged(repository.brandList)
      ensures Validate(cap.View()).None? && cap.id <= 0 ==> r == Err(IllegalArgument)
      ensures Validate(cap.View()).None? && cap.id > 0 && old(repository.InitOutcome()).Err? ==>
        r == Err(old(repository.InitOutcome()).error)
      ensures Validate(cap.View()).None? && cap.id > 0 && old(repository.InitOutcome()).Ok? ==>
        r == Ok(cap) || r == Err(DuplicateId)
      ensures Validate(cap.View()).None? && cap.id > 0 && old(repository.Loaded()) ==>
        r == if old(cap.id in repository.Index()) then Err(DuplicateId) else Ok(cap)
      ensures r.Ok? && old(repository.capList) != [] ==> repository.capList == old(repository.capList) + [cap]
      ensures r.Err? && old(repository.Loaded()) ==>
        repository.capList == old(repository.capList) && repository.Index() == old(repository.Index())
        && BrandViews(repository.brandList) == old(BrandViews(repository.brandList))
      ensures r.Ok? ==> r.value == cap && repository.heap == old(repository.heap) + "\n" + CapToText(cap.View())
      ensures r.Err? ==> repository.heap == old(repository.heap) && repository.indexFile == old(repository.indexFile)
      ensures r.Err? ==> repository.brandIndexFile == old(repository.brandIndexFile)
    {
      var defect := Validate(cap.View());
      if defect.Some? {
        return Err(InvalidParametersCap(defect.value));
      }
      r := repository.Save(cap);
    }
  }
}
