# Addresses and reference paths of the atopile compiler, in Dafny

This project models two value layers of the Go rewrite of the atopile compiler:

- **Addresses** (`internal/address/address.go`). An address is one string of the
  form `path/to/file.ato:Entry.Path::instance.path`. It has three parts:
  - the file section, before the first ':';
  - the entry section, between the first ':' and the next ':';
  - the instance section, after "::".

  Every accessor cuts the string with Go's `strings.Split` on ':' and picks a
  piece by position. "::" yields an empty piece at index 2, so the instance
  section is piece 3. `FromParts` composes an address from its sections.
  `AddInstance`/`AddEntry` and their list folds extend the instance or entry
  path, and fail with an `AddressError` when the grammar forbids it.
  `GetRelativeAddrStr` rewrites the file section relative to a base path.
- **Reference paths** (`internal/datatypes/datatypes.go`):
  - a `TypeRef` is a dotted list of names;
  - a `FieldRef` is a dotted list of parts, each a name with an optional key
    (`app.modules[0].resistors[1]`);
  - `IsInt` decides whether a key is an integer, using Go's `strconv.Atoi`.

Layout:

- `outcomes.dfy`: `Option` and `Result`.
- `go_strings.dfy`: the parts of Go's `strings` package the code relies on, with their laws:
  - `Index`, `Split` and `Join`;
  - the first occurrence;
  - the pieces are separator-free;
  - `Join(Split(s)) == s`;
  - `Split(Join(p)) == p`;
  - the first and last piece.
- `address.dfy`: the address functions, each with a contract saying what section of the string it returns.
- `address_loops.dfy`: `AddInstances`/`AddEntries` as the `for ... range` loops with early return that the source writes, proved equal to the folds in `address.dfy`.
- `address_properties.dfy`:
  - round trips between `FromParts` and the accessors;
  - the fold laws;
  - the literal cases of `internal/address/address_test.go`.
- `datatypes.dfy`: `Key`, `Atoi`/`IsInt`, `TypeRef`, `ReferencePart` and `FieldRef` as datatypes with member functions.
- `datatypes_loops.dfy`: the fill-a-fresh-slice loops of `ToTypeRef`, `FieldRef.String` and `FromTypeRef` as methods over arrays, each proved to compute the function of the same name.
- `datatypes_properties.dfy`: parse/print round trips, the `Append`/`Stem`/`Last` laws, and the keyless `FieldRef` ↔ `TypeRef` correspondence.

Go's `(value, error)` pairs become `Result<value, Error>`. A nil pointer result becomes `None`. Go's `interface{}` key (nil, a string or an `int`) becomes `Key = NoKey | StrKey(string) | IntKey(int64)`. The host's `filepath.Rel` is the function parameter `rel` of `GetRelativeAddrStr`.

## Model

| member | source | states |
|---|---|---|
| Address.FromParts | internal/address/address.go:41-63 | In each of the five cases, the composed string is the present sections with their separators. The file is omitted when empty. Without an entry the result is just the file, and the instance is dropped. |
| Address.GetFile | internal/address/address.go:66-72 | The result is a colon-free prefix of the address that stops at the first ':' or at the end. |
| Address.GetEntry | internal/address/address.go:75-81 | The result is a prefix of the address that contains no "::" starting inside it, so it ends at the first "::" or at the end of the address. |
| Address.GetEntrySection | internal/address/address.go:84-90 | The result is colon-free. It is "" when the address has no ':'. Otherwise it occupies the address from just after the file section up to the next ':' or the end. |
| Address.GetInstanceSection | internal/address/address.go:93-99 | The result is colon-free. It is "" when the address has fewer than three colons. Otherwise it occupies the address from just after the third ':' up to the next ':' or the end. |
| Address.ThirdColonPiece | internal/address/address.go:94-96 | Piece 3 of the split on ':' (the `parts[3]` that `GetInstanceSection` returns) is colon-free and starts just after the third ':' of the address. |
| Address.GetName | internal/address/address.go:102-113 | The result is a suffix of the address without ':' or '.'. It is the whole address or is preceded by ':' or '.', i.e. the longest such suffix. |
| Address.EntrySection | internal/address/address.go:32-38 | Ok exactly when the entry section is non-empty, with that section as the value. Otherwise the error is `AddressError("No entry section in address")`. |
| Address.AddInstance | internal/address/address.go:116-131 | Fails exactly when the name is non-empty and the address has neither an instance nor an entry section, with the exact message. An empty name changes nothing. Otherwise the result is the address plus "." (onto an instance) or "::" (onto an entry) plus the name. |
| Address.AddInstances | internal/address/address.go:134-143 | A success extends the address, and every failure is the "without an entry section" error. |
| Address.AddEntry | internal/address/address.go:146-156 | Fails exactly when there is an instance section, with the exact message. Otherwise the result is the address plus ":" (no entry yet) or "." plus the entry. |
| Address.AddEntries | internal/address/address.go:159-168 | A success extends the address, and every failure is the "entry to an instance" error. |
| Address.GetRelativeAddrStr | internal/address/address.go:171-183 | An address without a file is returned unchanged. A failure of `rel` is wrapped as "failed to get relative path: " plus its message. |
| AddressLoops.AddInstances | internal/address/address.go:134-143 | The loop with early return computes the fold `Address.AddInstances`. |
| AddressLoops.AddEntries | internal/address/address.go:159-168 | The loop with early return computes the fold `Address.AddEntries`. |
| AddressProperties.ColonPieces | internal/address/address.go:41-63 | Splitting a composed address on ':' gives `[file, entry]`, or `[file, entry, "", instance]` when there is an instance. |
| AddressProperties.FromPartsRoundTrip | internal/address/address.go:41-99 | For a non-empty, colon-free file and entry and a colon-free instance, the accessors read back the file, the entry and the instance. `GetEntry` reads back `file:entry`. |
| AddressProperties.FromPartsWithoutEntry | internal/address/address.go:41-63 | Without an entry, the composed address is the file alone, and it reads back with empty entry and instance sections. |
| AddressProperties.FromPartsWithoutFile | internal/address/address.go:41-99 | Without a file, the entry is read back as the file section, and the entry and instance sections are empty. |
| AddressProperties.NameOfSuffix | internal/address/address.go:102-113 | Any separator-free suffix that follows ':' or '.' is the name. |
| AddressProperties.AddInstanceName | internal/address/address.go:102-131 | After a successful `AddInstance` of a separator-free name, `GetName` returns that name. |
| AddressProperties.AddEntryName | internal/address/address.go:102-113 | After a successful `AddEntry` of a separator-free name, `GetName` returns that name. |
| AddressProperties.AddInstanceFromParts | internal/address/address.go:116-131 | Adding a name to a composed address composes the same file and entry with the instance path extended by the name. |
| AddressProperties.AddEntryFromParts | internal/address/address.go:146-156 | Adding a name to a composed address without instance composes the entry path extended by the name. |
| AddressProperties.AddEntryOnInstance | internal/address/address.go:146-149 | An address composed with an instance refuses any entry. |
| AddressProperties.AddInstancesConcat | internal/address/address.go:134-143 | Folding over `xs + ys` is folding over `ys` from the result for `xs`, or the first error. |
| AddressProperties.AddInstancesPair | internal/address/address.go:134-143 | Two names at once equal two single `AddInstance` calls in order. |
| AddressProperties.AddInstancesFromParts | internal/address/address.go:134-143 | Adding a list of colon-free names composes the instance path of the existing path and the non-empty names, joined by '.'. |
| AddressProperties.AddInstancesWithoutEntry | internal/address/address.go:116-143 | With neither entry nor instance section, the fold fails exactly when some name is non-empty. |
| AddressProperties.AddEntriesConcat | internal/address/address.go:159-168 | Folding over `xs + ys` is folding over `ys` from the result for `xs`, or the first error. |
| AddressProperties.AddEntriesFromParts | internal/address/address.go:146-168 | Adding a list of colon-free names composes the entry path of the existing entry and the names, joined by '.'. |
| AddressProperties.AddEntriesOnInstance | internal/address/address.go:146-168 | A non-empty list of entries on an instance address fails with the "entry to an instance" error. |
| AddressProperties.RelativeFromParts | internal/address/address.go:171-183 | Relativising a composed address replaces the file by `rel`'s result. The entry and instance sections read back unchanged. |
| AddressProperties.FromPartsExamples | internal/address/address_test.go:7-28 | The three `FromParts` cases of the test table. |
| AddressProperties.GetFileExample | internal/address/address_test.go:30-38 | `GetFile("path/to/file.ato:Entry::instance")` is "path/to/file.ato". |
| AddressProperties.GetEntrySectionExample | internal/address/address_test.go:40-48 | `GetEntrySection("file.ato:Module.Entry::instance")` is "Module.Entry". |
| AddressProperties.GetInstanceSectionExample | internal/address/address_test.go:50-58 | `GetInstanceSection("file.ato:Entry::instance.path")` is "instance.path". |
| AddressProperties.NameOfInstanceExample | internal/address/address_test.go:60-78 | The name of "file.ato:Entry::instance.path" is "path". |
| AddressProperties.NameOfModuleExample | internal/address/address_test.go:60-78 | The name of "file.ato:Module" is "Module". |
| AddressProperties.NameOfBareExample | internal/address/address_test.go:60-78 | The name of "simple" is "simple". |
| AddressProperties.AddInstanceExample | internal/address/address_test.go:80-92 | `AddInstance("file.ato:Entry", "instance1")` succeeds with "file.ato:Entry::instance1". |
| AddressProperties.AddEntryExample | internal/address/address_test.go:94-106 | `AddEntry("file.ato", "Module")` succeeds with "file.ato:Module". |
| Datatypes.Atoi | internal/datatypes/datatypes.go:19-20 | A parse succeeds only on a non-empty string. The accepted syntax is stated by `DatatypesProperties.IsIntSyntax` and the 64-bit range, in both directions, by `DatatypesProperties.AtoiDigits`. |
| Datatypes.IsInt | internal/datatypes/datatypes.go:10-24 | A nil key is never an integer and an int key always is. For string keys, the meaning is stated by `DatatypesProperties.IsIntSyntax` (syntax), `DatatypesProperties.AtoiDigits` (range, if and only if) and `DatatypesProperties.IsIntOfIntKey` (printed ints). |
| Datatypes.Digits | internal/datatypes/datatypes.go:87-92 | The decimal form of a number is one or more digits without a leading zero. |
| Datatypes.FromPathStr | internal/datatypes/datatypes.go:45-50 | The path is empty exactly when the string is empty. |
| Datatypes.NewTypeRef | internal/datatypes/datatypes.go:30-32 | The names are the given parts. |
| Datatypes.Empty | internal/datatypes/datatypes.go:35-37 | No names. |
| Datatypes.FromOne | internal/datatypes/datatypes.go:40-42 | Exactly the one name. |
| Datatypes.TypeRef.AddName | internal/datatypes/datatypes.go:53-58 | The result is one longer, keeps the receiver's names as its prefix and ends with the new name. The receiver, a value, is not changed. |
| Datatypes.TypeRef.String | internal/datatypes/datatypes.go:61-63 | "" for no names. Otherwise the string starts with the first name and holds at least one '.' per further name. Its exact meaning is stated by `DatatypesProperties.StringFromPathStr` and `DatatypesProperties.FromPathStrString` (inverse of `FromPathStr`) and `DatatypesProperties.AddNameString`. |
| Datatypes.ReferencePart.HasKey | internal/datatypes/datatypes.go:82-84 | True exactly when the key is a string or an int, i.e. not nil. How this shows in the printed part is stated by `DatatypesProperties.PartStringKeyed`. |
| Datatypes.ReferencePart.String | internal/datatypes/datatypes.go:87-92 | The printed part starts with the name. |
| Datatypes.NewReferencePartType | internal/datatypes/datatypes.go:73-79 | The part keeps the name and key and always refers to a node. |
| Datatypes.PartStrings | internal/datatypes/datatypes.go:129-135 | One printed part per part, in order. |
| Datatypes.PartNames | internal/datatypes/datatypes.go:145-149 | One name per part, in order. |
| Datatypes.AnyKeyed | internal/datatypes/datatypes.go:139-143 | True exactly when some part has a key. |
| Datatypes.FieldRef.Append | internal/datatypes/datatypes.go:105-110 | The result is one longer, keeps the receiver's parts as its prefix and ends with the new part. |
| Datatypes.FieldRef.Stem | internal/datatypes/datatypes.go:113-118 | The empty reference is its own stem. Otherwise the stem is the prefix one shorter. |
| Datatypes.FieldRef.Last | internal/datatypes/datatypes.go:121-126 | `None` exactly for the empty reference, otherwise the last part. |
| Datatypes.FieldRef.String | internal/datatypes/datatypes.go:129-135 | "" for no parts. Otherwise the string starts with the first part's name and holds at least one '.' per further part. Its exact meaning is stated by `DatatypesProperties.AppendString` and `DatatypesProperties.KeylessString`. |
| Datatypes.FieldRef.ToTypeRef | internal/datatypes/datatypes.go:138-152 | `None` exactly when some part has a key. Otherwise the names of the parts, in order and of the same length. |
| Datatypes.NewFieldRef | internal/datatypes/datatypes.go:100-102 | The parts are the given ones. |
| Datatypes.FromTypeRef | internal/datatypes/datatypes.go:155-161 | One part per name, in order, each keyless and a node reference. |
| DatatypesLoops.ToTypeRef | internal/datatypes/datatypes.go:138-152 | The two loops compute `FieldRef.ToTypeRef`. |
| DatatypesLoops.String | internal/datatypes/datatypes.go:129-135 | The fill-then-join loop computes `FieldRef.String`. |
| DatatypesLoops.FromTypeRef | internal/datatypes/datatypes.go:155-161 | The fill loop computes `FromTypeRef`. |
| DatatypesProperties.DigitsRoundTrip | internal/datatypes/datatypes.go:19-20 | Reading the printed digits of a number gives the number back. |
| DatatypesProperties.AtoiDecimal | internal/datatypes/datatypes.go:19-20 | `Atoi` parses the `%v` form of every 64-bit int back to that int. |
| DatatypesProperties.IsIntOfIntKey | internal/datatypes/datatypes.go:10-24 | An int key is an integer, and so is the string it prints as. |
| DatatypesProperties.IsIntSyntax | internal/datatypes/datatypes.go:18-20 | A string key that is an integer is a '+', '-' or digit followed by digits only, and a sign is never alone. |
| DatatypesProperties.AtoiDigits | internal/datatypes/datatypes.go:18-20 | For a non-empty run of digits d: d and "+d" are integers exactly when d's value is below 2^63, and "-d" exactly when it is at most 2^63. The parsed value is d's value, negated after '-'. |
| DatatypesProperties.DigitsBound | internal/datatypes/datatypes.go:19-20 | A run of n digits is worth less than 10^n. |
| DatatypesProperties.ShortDigitsAreInts | internal/datatypes/datatypes.go:18-20 | Every run of 1 to 18 digits, unsigned or after '+' or '-', is an integer. |
| DatatypesProperties.DigitsLowerBound | internal/datatypes/datatypes.go:19-20 | A run of n digits not starting with '0' is worth at least 10^(n-1). |
| DatatypesProperties.LongDigitsAreNotInts | internal/datatypes/datatypes.go:18-20 | A run of 20 or more digits not starting with '0', signed or not, overflows 64 bits and is not an integer. |
| DatatypesProperties.StringFromPathStr | internal/datatypes/datatypes.go:45-63 | Printing a parsed dotted path gives back every string. |
| DatatypesProperties.FromPathStrString | internal/datatypes/datatypes.go:45-63 | Parsing a printed type reference gives it back exactly when no name contains '.' and it is not the single empty name. |
| DatatypesProperties.JoinEmpty | internal/datatypes/datatypes.go:61-63 | A join is empty only for no names or one empty name. |
| DatatypesProperties.JoinAppend | internal/datatypes/datatypes.go:53-63 | Appending one more part puts one separator before it in the join. |
| DatatypesProperties.AddNameString | internal/datatypes/datatypes.go:53-63 | Adding a name prints as the old path, a dot and the name. |
| DatatypesProperties.SmallTypeRefs | internal/datatypes/datatypes.go:35-50 | `Empty` prints as "" and `FromOne(n)` as n. `FromPathStr("")` is `Empty`. |
| DatatypesProperties.PartStringKeyed | internal/datatypes/datatypes.go:82-92 | A part prints longer than its name exactly when it has a key. It then prints as `name[key]`. |
| DatatypesProperties.IntKeyPrinted | internal/datatypes/datatypes.go:73-92 | The text between the brackets of an int-keyed part parses back to the key. |
| DatatypesProperties.AppendStemLast | internal/datatypes/datatypes.go:105-126 | `Stem` of `Append(p)` is the original reference, and `Last` of it is p. |
| DatatypesProperties.StemAppendLast | internal/datatypes/datatypes.go:105-126 | Appending the last part to the stem rebuilds a non-empty reference. |
| DatatypesProperties.AppendString | internal/datatypes/datatypes.go:105-135 | Appending a part prints as the old reference, a dot and the printed part. |
| DatatypesProperties.ToTypeRefFromTypeRef | internal/datatypes/datatypes.go:138-161 | `ToTypeRef(FromTypeRef(t))` is t. |
| DatatypesProperties.FromTypeRefToTypeRef | internal/datatypes/datatypes.go:138-161 | A keyless reference whose parts are all node references survives the trip through its type reference. |
| DatatypesProperties.KeylessString | internal/datatypes/datatypes.go:61-63 | A keyless field reference prints as its type reference. |
| DatatypesProperties.FromTypeRefString | internal/datatypes/datatypes.go:155-161 | The field reference built from a type reference prints as the type reference. |

## Left out

- `filepath.Rel` is a parameter of `GetRelativeAddrStr`. Its path-cleaning semantics are host behaviour and are not modelled.
- `fmt.Errorf`'s `%w` wrapping is modelled by its message text only. The wrapped error value is not kept.
- The `""` value that Go returns next to an error is not carried. `Err` has no value part.
- `AddrStr.FilePath` and `AddrStr.String` (internal/address/address.go:28-30, 186-188) are the identity or `GetFile` under another name, so they have no members of their own.
- `AddressError.Error` and `NewAddressError` (internal/address/address.go:14-25) only wrap a message, which the `AddressError(message)` constructor holds.
- Go's pointer identity and slice aliasing are not modelled:
  - `Stem` returns the same `*FieldRef` when empty and shares the backing array otherwise;
  - `NewReferencePartType` returns a pointer.
  
  All of these are values here.
- Datatypes.IsInt: the `interface{}` default branch (any other dynamic type) cannot occur because keys are the `Key` datatype. A nil key is `NoKey`.
- Datatypes.TypeRef.AddName, Datatypes.FieldRef.Append: the `make`+`copy` is modelled as sequence concatenation, not an element-by-element array copy.
- Datatypes.int64: Go's `int` is 64 bits wide only on 64-bit platforms. On a 32-bit platform `strconv.Atoi` accepts a smaller range, which is not modelled.
- Strings are sequences of characters, not UTF-8 bytes. Every separator is ASCII, so the split points coincide.
- The rest of the repository is not part of this model: the command line, configuration discovery, telemetry, version lookup, the error structs, and the Python tooling. These are I/O, global state and formatting.
