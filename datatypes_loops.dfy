/**
  The conversions of `FieldRef` as the source writes them: allocate a slice of
  the right length and fill it with an index loop. Each method is proved to
  compute the function of the same name in `Datatypes`.
*/
module DatatypesLoops {
  import opened Outcomes
  import opened GoStrings
  import Datatypes

  /** Scans for a keyed part, then copies the names into a fresh array. */
  method ToTypeRef(f: Datatypes.FieldRef) returns (r: Option<Datatypes.TypeRef>)
    ensures r == f.ToTypeRef()
  {
    for i := 0 to |f.parts|
      invariant forall j :: 0 <= j < i ==> !f.parts[j].HasKey()
    {
      if f.parts[i].HasKey() {
        return None;
      }
    }
    var names := new string[|f.parts|](_ => "");
    for i := 0 to |f.parts|
      invariant forall j :: 0 <= j < i ==> names[j] == f.parts[j].name
    {
      names[i] := f.parts[i].name;
    }
    assert names[..] == Datatypes.PartNames(f.parts);
    r := Some(Datatypes.TypeRef(names[..]));
  }

  /** Prints each part into a fresh array, then joins them with '.'. */
  method String(f: Datatypes.FieldRef) returns (s: string)
    ensures s == f.String()
  {
    var parts := new string[|f.parts|](_ => "");
    for i := 0 to |f.parts|
      invariant forall j :: 0 <= j < i ==> parts[j] == f.parts[j].String()
    {
      parts[i] := f.parts[i].String();
    }
    assert parts[..] == Datatypes.PartStrings(f.parts);
    s := Join(parts[..], ".");
  }

  /** Makes one keyless node part per name in a fresh array. */
  method FromTypeRef(typeRef: Datatypes.TypeRef) returns (f: Datatypes.FieldRef)
    ensures f == Datatypes.FromTypeRef(typeRef)
  {
    var parts := new Datatypes.ReferencePart[|typeRef.names|](_ => Datatypes.ReferencePart("", Datatypes.NoKey, false));
    for i := 0 to |typeRef.names|
      invariant forall j :: 0 <= j < i ==> parts[j] == Datatypes.NewReferencePartType(typeRef.names[j], Datatypes.NoKey)
    {
      parts[i] := Datatypes.NewReferencePartType(typeRef.names[i], Datatypes.NoKey);
    }
    f := Datatypes.FieldRef(parts[..]);
    assert f.parts == Datatypes.FromTypeRef(typeRef).parts;
  }
}
