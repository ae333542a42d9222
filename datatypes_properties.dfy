/**
  What the reference-path values promise: integer keys print and parse back,
  dotted paths and type references convert into each other, `Append`, `Stem`
  and `Last` undo one another, and a keyless field reference is the same path
  as its type reference.
*/
module DatatypesProperties {
  import opened Outcomes
  import opened GoStrings
  import opened Datatypes

  function Pow10(n: nat): (r: nat)
    ensures r >= 1
  {
    if n == 0 then 1 else 10 * Pow10(n - 1)
  }

  /** Reading the printed digits of a number gives the number back. */
  lemma {:induction false} DigitsRoundTrip(n: nat)
    ensures DigitsValue(Digits(n)) == n
  {
    var s := Digits(n);
    if n >= 10 {
      DigitsRoundTrip(n / 10);
      assert s[..|s| - 1] == Digits(n / 10);
    }
  }

  /** `strconv.Atoi` reads back what `%v` prints, for every 64-bit int. */
  lemma AtoiDecimal(i: int64)
    ensures Atoi(Decimal(i as int)) == Some(i)
  {
    var n := i as int;
    var s := Decimal(n);
    if n < 0 {
      DigitsRoundTrip(-n);
      assert s[1..] == Digits(-n);
    } else {
      DigitsRoundTrip(n);
      assert IsDigit(s[0]);
    }
  }

  /** An int key is an integer, and so is the string it prints as. */
  lemma IsIntOfIntKey(i: int64)
    ensures IsInt(IntKey(i))
    ensures IsInt(StrKey(KeyString(IntKey(i))))
  {
    AtoiDecimal(i);
  }

  /** A string key that is an integer is a sign or a digit followed by digits only. */
  lemma IsIntSyntax(s: string)
    requires IsInt(StrKey(s))
    ensures |s| >= 1 && (IsDigit(s[0]) || s[0] == '+' || s[0] == '-')
    ensures |s| >= 2 || IsDigit(s[0])
    ensures forall i :: 1 <= i < |s| ==> IsDigit(s[i])
  {
    if s[0] == '+' || s[0] == '-' {
      assert forall i :: 1 <= i < |s| ==> s[i] == s[1..][i - 1];
    }
  }

  /**
    A run of digits parses, unsigned or after '+', exactly when its value is
    below 2^63, and after '-' exactly when its value is at most 2^63; the parse
    is the value, negated after '-'.
  */
  lemma AtoiDigits(d: string)
    requires |d| >= 1 && AllDigits(d)
    ensures DigitsValue(d) < 0x8000_0000_0000_0000 ==>
      Atoi(d) == Some(DigitsValue(d) as int64) && Atoi("+" + d) == Some(DigitsValue(d) as int64)
    ensures DigitsValue(d) >= 0x8000_0000_0000_0000 ==> Atoi(d) == None && Atoi("+" + d) == None
    ensures DigitsValue(d) <= 0x8000_0000_0000_0000 ==> Atoi("-" + d) == Some((0 - DigitsValue(d) as int) as int64)
    ensures DigitsValue(d) > 0x8000_0000_0000_0000 ==> Atoi("-" + d) == None
    ensures IsInt(StrKey(d)) <==> DigitsValue(d) < 0x8000_0000_0000_0000
    ensures IsInt(StrKey("+" + d)) <==> DigitsValue(d) < 0x8000_0000_0000_0000
    ensures IsInt(StrKey("-" + d)) <==> DigitsValue(d) <= 0x8000_0000_0000_0000
  {
    assert IsDigit(d[0]);
    assert ("+" + d)[1..] == d;
    assert ("-" + d)[1..] == d;
  }

  /** A run of `n` digits is worth less than 10^n. */
  lemma {:induction false} DigitsBound(s: string)
    requires AllDigits(s)
    ensures DigitsValue(s) < Pow10(|s|)
    decreases |s|
  {
    if |s| > 0 {
      DigitsBound(s[..|s| - 1]);
    }
  }

  /** Every run of one to eighteen digits, with or without a sign, is an integer: it cannot overflow. */
  lemma ShortDigitsAreInts(s: string)
    requires 1 <= |s| <= 18 && AllDigits(s)
    ensures IsInt(StrKey(s)) && IsInt(StrKey("+" + s)) && IsInt(StrKey("-" + s))
  {
    DigitsBound(s);
    Pow10Monotone(|s|, 18);
    assert Pow10(6) == 1_000_000;
    assert Pow10(12) == 1_000_000_000_000;
    assert ("+" + s)[1..] == s;
    assert ("-" + s)[1..] == s;
  }

  lemma {:induction false} Pow10Monotone(m: nat, n: nat)
    requires m <= n
    ensures Pow10(m) <= Pow10(n)
    decreases n
  {
    if m < n {
      Pow10Monotone(m, n - 1);
    }
  }

  /** A run of digits that does not start with '0' is worth at least 10^(n-1). */
  lemma {:induction false} DigitsLowerBound(s: string)
    requires |s| >= 1 && AllDigits(s) && s[0] != '0'
    ensures DigitsValue(s) >= Pow10(|s| - 1)
    decreases |s|
  {
    if |s| > 1 {
      DigitsLowerBound(s[..|s| - 1]);
    }
  }

  /**
    Every run of twenty or more digits that does not start with '0', with or
    without a sign, is not an integer: it overflows 64 bits.
  */
  lemma LongDigitsAreNotInts(s: string)
    requires |s| >= 20 && AllDigits(s) && s[0] != '0'
    ensures !IsInt(StrKey(s)) && !IsInt(StrKey("+" + s)) && !IsInt(StrKey("-" + s))
  {
    DigitsLowerBound(s);
    Pow10Monotone(19, |s| - 1);
    assert Pow10(6) == 1_000_000;
    assert Pow10(12) == 1_000_000_000_000;
    assert Pow10(19) == 10_000_000_000_000_000_000;
    assert ("+" + s)[1..] == s;
    assert ("-" + s)[1..] == s;
  }

  /** Printing a parsed dotted path gives the string back, for every string. */
  lemma StringFromPathStr(path: string)
    ensures FromPathStr(path).String() == path
  {
    if path != "" {
      SplitPieces(path, ".");
    }
  }

  /** Joining is empty only for no names or one empty name. */
  lemma JoinEmpty(names: seq<string>, sep: string)
    requires |sep| > 0 && Join(names, sep) == ""
    ensures names == [] || names == [""]
  {
  }

  /**
    Parsing the printed form of a type reference gives it back exactly when no
    name contains a dot and it is not the single empty name (which prints as the
    empty string, the empty path).
  */
  lemma FromPathStrString(t: TypeRef)
    ensures FromPathStr(t.String()) == t <==> t.names != [""] && forall i :: 0 <= i < |t.names| ==> '.' !in t.names[i]
  {
    var s := t.String();
    if t.names != [""] && forall i :: 0 <= i < |t.names| ==> '.' !in t.names[i] {
      if t.names != [] {
        if s == "" {
          JoinEmpty(t.names, ".");
        }
        SplitJoin(t.names, '.');
      }
    }
    if FromPathStr(s) == t && s != "" {
      SplitPieces(s, ".");
      forall i | 0 <= i < |t.names| ensures '.' !in t.names[i] {
        FreeOfChar(t.names[i], '.');
      }
    }
  }

  /** Joining after appending one more part puts one separator before it. */
  lemma {:induction false} JoinAppend(parts: seq<string>, last: string, sep: string)
    ensures Join(parts + [last], sep) == if |parts| == 0 then last else Join(parts, sep) + sep + last
    decreases |parts|
  {
    if |parts| == 1 {
      assert (parts + [last])[1..] == [last];
    } else if |parts| >= 2 {
      assert (parts + [last])[1..] == parts[1..] + [last];
      JoinAppend(parts[1..], last, sep);
    }
  }

  /** Adding a name prints as the old path, a dot and the name. */
  lemma AddNameString(t: TypeRef, name: string)
    ensures t.AddName(name).String() == if |t.names| == 0 then name else t.String() + "." + name
  {
    JoinAppend(t.names, name, ".");
  }

  /** The empty type reference prints as "", a one-name one as the name. */
  lemma SmallTypeRefs(name: string)
    ensures Empty().String() == "" && FromOne(name).String() == name
    ensures FromPathStr("") == Empty()
  {
  }

  /** A part prints longer than its name exactly when it has a key, and then as `name[key]`. */
  lemma PartStringKeyed(p: ReferencePart)
    ensures p.HasKey() <==> |p.String()| > |p.name|
    ensures p.HasKey() ==> p.String()[|p.name|] == '[' && p.String()[|p.String()| - 1] == ']'
    ensures p.HasKey() ==> p.String()[|p.name| + 1..|p.String()| - 1] == KeyString(p.key)
  {
  }

  /** An int-keyed part prints its key in decimal, and the text between the brackets parses back to it. */
  lemma IntKeyPrinted(name: string, i: int64)
    ensures var s := NewReferencePartType(name, IntKey(i)).String();
      Atoi(s[|name| + 1..|s| - 1]) == Some(i)
  {
    var p := NewReferencePartType(name, IntKey(i));
    PartStringKeyed(p);
    AtoiDecimal(i);
  }

  /** `Stem` and `Last` take apart what `Append` put together. */
  lemma AppendStemLast(f: FieldRef, p: ReferencePart)
    ensures f.Append(p).Stem() == f
    ensures f.Append(p).Last() == Some(p)
  {
    assert (f.parts + [p])[..|f.parts|] == f.parts;
  }

  /** Appending the last part to the stem rebuilds a non-empty reference. */
  lemma StemAppendLast(f: FieldRef)
    requires |f.parts| > 0
    ensures f.Stem().Append(f.Last().value) == f
  {
    assert f.parts[..|f.parts| - 1] + [f.parts[|f.parts| - 1]] == f.parts;
  }

  /** Appending a part prints as the old reference, a dot and the part. */
  lemma AppendString(f: FieldRef, p: ReferencePart)
    ensures f.Append(p).String() == if |f.parts| == 0 then p.String() else f.String() + "." + p.String()
  {
    assert PartStrings(f.parts + [p]) == PartStrings(f.parts) + [p.String()];
    JoinAppend(PartStrings(f.parts), p.String(), ".");
  }

  /** A type reference survives the trip through a field reference. */
  lemma ToTypeRefFromTypeRef(t: TypeRef)
    ensures FromTypeRef(t).ToTypeRef() == Some(t)
  {
    var r := FromTypeRef(t).ToTypeRef();
    assert r.Some?;
    assert r.value.names == t.names;
  }

  /**
    A keyless field reference survives the trip through a type reference when
    every part refers to a node, the only kind of part `FromTypeRef` makes.
  */
  lemma FromTypeRefToTypeRef(f: FieldRef)
    requires f.ToTypeRef().Some?
    requires forall i :: 0 <= i < |f.parts| ==> f.parts[i].isNodeReference
    ensures FromTypeRef(f.ToTypeRef().value) == f
  {
    var g := FromTypeRef(f.ToTypeRef().value);
    assert |g.parts| == |f.parts|;
    forall i | 0 <= i < |f.parts| ensures g.parts[i] == f.parts[i] {
      assert !f.parts[i].HasKey();
    }
  }

  /** A keyless field reference prints as its type reference. */
  lemma KeylessString(f: FieldRef)
    requires f.ToTypeRef().Some?
    ensures f.String() == f.ToTypeRef().value.String()
  {
    var t := f.ToTypeRef().value;
    forall i | 0 <= i < |f.parts| ensures PartStrings(f.parts)[i] == t.names[i] {
      assert !f.parts[i].HasKey();
    }
    assert PartStrings(f.parts) == t.names;
  }

  /** The field reference made from a type reference prints as the type reference. */
  lemma FromTypeRefString(t: TypeRef)
    ensures FromTypeRef(t).String() == t.String()
  {
    ToTypeRefFromTypeRef(t);
    KeylessString(FromTypeRef(t));
  }
}
