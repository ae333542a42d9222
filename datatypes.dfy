/**
  The reference-path values of the compiler: a `TypeRef` is a dotted list of
  names, a `FieldRef` a dotted list of parts that may carry an index key
  (`app.modules[0].resistors[1]`). Go's `interface{}` key, which holds nil, a
  string or an `int`, is the datatype `Key`; Go's `int` is 64 bits wide.
*/
module Datatypes {
  import opened Outcomes
  import opened GoStrings

  /** Go's `int` on a 64-bit platform. */
  newtype int64 = x: int | -0x8000_0000_0000_0000 <= x < 0x8000_0000_0000_0000

  /** The key of a reference part: absent (Go's nil), a string, or an int. */
  datatype Key = NoKey | StrKey(s: string) | IntKey(i: int64)

  predicate IsDigit(c: char) {
    '0' <= c <= '9'
  }

  predicate AllDigits(s: string) {
    forall i :: 0 <= i < |s| ==> IsDigit(s[i])
  }

  /** The value of a run of decimal digits, most significant first. */
  function DigitsValue(s: string): nat
    requires AllDigits(s)
    decreases |s|
  {
    if |s| == 0 then 0
    else DigitsValue(s[..|s| - 1]) * 10 + ((s[|s| - 1] as int) - ('0' as int))
  }

  /**
    Go's `strconv.Atoi` for base 10: an optional '+' or '-', then at least one
    ASCII digit and nothing else, with a value that fits in 64 bits; `None`
    stands for the syntax and range errors.
  */
  function Atoi(s: string): (r: Option<int64>)
    ensures r.Some? ==> |s| >= 1
  {
    if |s| == 0 then None
    else
      var negative := s[0] == '-';
      var digits := if s[0] == '-' || s[0] == '+' then s[1..] else s;
      if |digits| == 0 || !AllDigits(digits) then None
      else
        var magnitude: int := DigitsValue(digits);
        var value := if negative then -magnitude else magnitude;
        if -0x8000_0000_0000_0000 <= value < 0x8000_0000_0000_0000 then Some(value as int64) else None
  }

  /**
    Whether a key holds an integer: an int key always does, a string key when
    it parses as a decimal integer, and an absent key never.
  */
  function IsInt(k: Key): (r: bool)
    ensures k.NoKey? ==> !r
    ensures k.IntKey? ==> r
  {
    match k
    case NoKey => false
    case IntKey(_) => true
    case StrKey(s) => Atoi(s).Some?
  }

  function DigitChar(d: nat): (c: char)
    requires d < 10
    ensures IsDigit(c) && (c as int) - ('0' as int) == d
  {
    (('0' as int) + d) as char
  }

  /** The decimal digits of a natural number, without leading zeros. */
  function Digits(n: nat): (s: string)
    ensures |s| >= 1 && AllDigits(s)
    ensures n > 0 ==> s[0] != '0'
  {
    if n < 10 then [DigitChar(n)] else Digits(n / 10) + [DigitChar(n % 10)]
  }

  /** How Go's `%v` prints an `int`: its decimal digits, after a '-' when negative. */
  function Decimal(n: int): (s: string)
    ensures |s| >= 1
  {
    if n < 0 then "-" + Digits(-n) else Digits(n)
  }

  /** How Go's `%v` prints a key that is present. */
  function KeyString(k: Key): string
    requires k != NoKey
  {
    match k
    case StrKey(s) => s
    case IntKey(i) => Decimal(i as int)
  }

  /** A reference type: the names of a dotted path, outermost first. */
  datatype TypeRef = TypeRef(names: seq<string>)
  {
    /** A copy of this path with `name` appended; the receiver is a value and stays as it was. */
    function AddName(name: string): (r: TypeRef)
      ensures |r.names| == |names| + 1
      ensures r.names[..|names|] == names && r.names[|names|] == name
    {
      TypeRef(names + [name])
    }

    /** The names joined with '.': the first name, then at least one dot per further name. */
    function String(): (r: string)
      ensures |names| == 0 ==> r == ""
      ensures |names| > 0 ==> names[0] <= r && CountChar(r, '.') >= |names| - 1
    {
      JoinFirst(names, ".");
      JoinCountChar(names, '.');
      Join(names, ".")
    }
  }

  function NewTypeRef(parts: seq<string>): (r: TypeRef)
    ensures r.names == parts
  {
    TypeRef(parts)
  }

  function Empty(): (r: TypeRef)
    ensures |r.names| == 0
  {
    TypeRef([])
  }

  function FromOne(name: string): (r: TypeRef)
    ensures r.names == [name]
  {
    TypeRef([name])
  }

  /** Parses a dotted path: the empty string is the empty path, anything else its pieces between dots. */
  function FromPathStr(path: string): (r: TypeRef)
    ensures path == "" <==> |r.names| == 0
  {
    if path == "" then Empty() else TypeRef(Split(path, "."))
  }

  /** One step of a field reference: a name, an optional key, and whether it names a node. */
  datatype ReferencePart = ReferencePart(name: string, key: Key, isNodeReference: bool)
  {
    /** Whether a key is present: a string key or an int key. */
    function HasKey(): (r: bool)
      ensures r <==> key.StrKey? || key.IntKey?
    {
      key != NoKey
    }

    /** The name alone, or `name[key]` when a key is present. */
    function String(): (r: string)
      ensures |name| <= |r| && r[..|name|] == name
    {
      if HasKey() then name + "[" + KeyString(key) + "]" else name
    }
  }

  /** A fresh reference part; it always refers to a node. */
  function NewReferencePartType(name: string, key: Key): (r: ReferencePart)
    ensures r.name == name && r.key == key && r.isNodeReference
  {
    ReferencePart(name, key, true)
  }

  /** The printed form of each part, in order. */
  function PartStrings(parts: seq<ReferencePart>): (r: seq<string>)
    ensures |r| == |parts|
    ensures forall i :: 0 <= i < |parts| ==> r[i] == parts[i].String()
  {
    if |parts| == 0 then [] else [parts[0].String()] + PartStrings(parts[1..])
  }

  /** The name of each part, in order. */
  function PartNames(parts: seq<ReferencePart>): (r: seq<string>)
    ensures |r| == |parts|
    ensures forall i :: 0 <= i < |parts| ==> r[i] == parts[i].name
  {
    if |parts| == 0 then [] else [parts[0].name] + PartNames(parts[1..])
  }

  /** Whether some part carries a key. */
  function AnyKeyed(parts: seq<ReferencePart>): (r: bool)
    ensures r <==> exists i :: 0 <= i < |parts| && parts[i].HasKey()
  {
    if |parts| == 0 then false
    else if parts[0].HasKey() then
      true
    else
      assert forall i :: 1 <= i < |parts| ==> parts[i] == parts[1..][i - 1];
      AnyKeyed(parts[1..])
  }

  /** A reference to a field, such as `app.modules[0].resistors[1]`. */
  datatype FieldRef = FieldRef(parts: seq<ReferencePart>)
  {
    /** A copy of this reference with `part` appended; the receiver stays as it was. */
    function Append(part: ReferencePart): (r: FieldRef)
      ensures |r.parts| == |parts| + 1
      ensures r.parts[..|parts|] == parts && r.parts[|parts|] == part
    {
      FieldRef(parts + [part])
    }

    /** The reference without its last part; the empty reference is its own stem. */
    function Stem(): (r: FieldRef)
      ensures |parts| == 0 ==> r == this
      ensures |parts| > 0 ==> |r.parts| == |parts| - 1 && r.parts <= parts
    {
      if |parts| == 0 then this else FieldRef(parts[..|parts| - 1])
    }

    /** The last part, or `None` (Go's nil) for the empty reference. */
    function Last(): (r: Option<ReferencePart>)
      ensures r.None? <==> |parts| == 0
      ensures r.Some? ==> r.value == parts[|parts| - 1]
    {
      if |parts| == 0 then None else Some(parts[|parts| - 1])
    }

    /** The printed parts joined with '.': the first name, then at least one dot per further part. */
    function String(): (r: string)
      ensures |parts| == 0 ==> r == ""
      ensures |parts| > 0 ==> parts[0].name <= r && CountChar(r, '.') >= |parts| - 1
    {
      var printed := PartStrings(parts);
      JoinFirst(printed, ".");
      JoinCountChar(printed, '.');
      Join(printed, ".")
    }

    /** The names as a type reference, or `None` (Go's nil) when some part carries a key. */
    function ToTypeRef(): (r: Option<TypeRef>)
      ensures r.None? <==> exists i :: 0 <= i < |parts| && parts[i].HasKey()
      ensures r.Some? ==> |r.value.names| == |parts|
      ensures r.Some? ==> forall i :: 0 <= i < |parts| ==> r.value.names[i] == parts[i].name
    {
      if AnyKeyed(parts) then None else Some(TypeRef(PartNames(parts)))
    }
  }

  function NewFieldRef(parts: seq<ReferencePart>): (r: FieldRef)
    ensures r.parts == parts
  {
    FieldRef(parts)
  }

  /** A field reference with one keyless node part per name, in order. */
  function FromTypeRef(typeRef: TypeRef): (r: FieldRef)
    ensures |r.parts| == |typeRef.names|
    ensures forall i :: 0 <= i < |r.parts| ==> r.parts[i] == NewReferencePartType(typeRef.names[i], NoKey)
    decreases |typeRef.names|
  {
    if |typeRef.names| == 0 then FieldRef([])
    else
      var rest := FromTypeRef(TypeRef(typeRef.names[1..]));
      FieldRef([NewReferencePartType(typeRef.names[0], NoKey)] + rest.parts)
  }
}
