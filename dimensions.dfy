/** The dimension schema: the ordered, named, typed columns a List holds. */
module Dimensions {
  import opened Wrappers

  /** A column's storage type; a bare name declares a float column. */
  datatype DimType = Float | Int

  /** A dimension as the caller declares it: a bare name or an explicit `{name, type}`. */
  datatype DimDecl = Bare(name: string) | Typed(name: string, dimType: DimType)

  /** A resolved dimension; its position in the schema is its column index. */
  datatype Dim = Dim(name: string, dimType: DimType)

  function ResolveDecl(decl: DimDecl): Dim {
    match decl
    case Bare(n) => Dim(n, Float)
    case Typed(n, t) => Dim(n, t)
  }

  /** The schema of a declaration list: same names, same order, bare names as float. */
  function ResolveDecls(decls: seq<DimDecl>): (dims: seq<Dim>)
    ensures |dims| == |decls|
    ensures forall k :: 0 <= k < |decls| ==> dims[k].name == decls[k].name
    ensures forall k :: 0 <= k < |decls| ==>
      dims[k].dimType == (if decls[k].Bare? then Float else decls[k].dimType)
  {
    seq(|decls|, k requires 0 <= k < |decls| => ResolveDecl(decls[k]))
  }

  ghost predicate DistinctNames(dims: seq<Dim>) {
    forall a, b :: 0 <= a < b < |dims| ==> dims[a].name != dims[b].name
  }

  ghost predicate DistinctDeclNames(decls: seq<DimDecl>) {
    forall a, b :: 0 <= a < b < |decls| ==> decls[a].name != decls[b].name
  }

  /** Lookup of a dimension by name: the first column with that name, or None. */
  function DimIndex(dims: seq<Dim>, name: string): (r: Option<nat>)
    ensures r.Some? ==> r.value < |dims| && dims[r.value].name == name
    ensures r.Some? ==> forall k :: 0 <= k < r.value ==> dims[k].name != name
    ensures r.None? <==> forall k :: 0 <= k < |dims| ==> dims[k].name != name
  {
    if |dims| == 0 then None
    else if dims[0].name == name then Some(0)
    else match DimIndex(dims[1..], name)
      case None => None
      case Some(k) => Some(k + 1)
  }

  /** In a schema with distinct names, looking up a column's own name finds that column. */
  lemma DimIndexOfOwnName(dims: seq<Dim>, k: nat)
    requires DistinctNames(dims)
    requires k < |dims|
    ensures DimIndex(dims, dims[k].name) == Some(k)
  {
    var r := DimIndex(dims, dims[k].name);
    assert r.Some?;
  }

  /** Resolves a list of dimension names to column indices, failing on the first unknown name. */
  function ResolveNames(dims: seq<Dim>, names: seq<string>): (r: Result<seq<nat>>)
    ensures r.Ok? ==> |r.value| == |names|
    ensures r.Ok? ==> forall k :: 0 <= k < |names| ==>
      r.value[k] < |dims| && dims[r.value[k]].name == names[k]
    ensures r.Ok? <==> forall k :: 0 <= k < |names| ==> DimIndex(dims, names[k]).Some?
    ensures r.Err? ==>
      r.error.UnknownDimension? && r.error.name in names && DimIndex(dims, r.error.name).None?
  {
    if |names| == 0 then Ok([])
    else match DimIndex(dims, names[0])
      case None => Err(UnknownDimension(names[0]))
      case Some(d) =>
        match ResolveNames(dims, names[1..])
        case Err(e) => Err(e)
        case Ok(rest) => Ok([d] + rest)
  }
}
