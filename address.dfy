/**
  The address grammar of the compiler: one string of the form
  `file:Entry.Path::instance.path`. Every accessor cuts the string with Go's
  `strings.Split` on a single ':' and picks a piece by position; because "::"
  yields an empty piece at index 2, the instance section is piece 3.
*/
module Address {
  import opened Outcomes
  import opened GoStrings

  /** An address string. Any string is an address; malformed ones just have fewer sections. */
  type AddrStr = string

  /**
    The errors of this layer: `AddressError` for grammar violations, and the
    wrapped failure of path relativisation.
  */
  datatype Error =
    | AddressError(message: string)
    | PathError(message: string)

  const NoEntrySection: string := "No entry section in address"
  const InstanceWithoutEntry: string := "Cannot add instance to something without an entry section"
  const EntryOnInstance: string := "Cannot add entry to an instance address"
  const RelativePathFailed: string := "failed to get relative path: "

  /**
    Composes an address from its sections, appending each non-empty one with its
    separator. The file is omitted when empty, and an instance is dropped when
    there is no entry.
  */
  function FromParts(file: string, entry: string, instance: string): (a: AddrStr)
    ensures entry == "" ==> a == file
    ensures entry != "" && file == "" && instance == "" ==> a == entry
    ensures entry != "" && file == "" && instance != "" ==> a == entry + "::" + instance
    ensures entry != "" && file != "" && instance == "" ==> a == file + ":" + entry
    ensures entry != "" && file != "" && instance != "" ==> a == file + ":" + entry + "::" + instance
  {
    var withFile: seq<string> := if file != "" then [file] else [];
    var withEntry := if entry != "" then withFile + [if |withFile| > 0 then ":" + entry else entry] else withFile;
    var parts := if instance != "" && entry != "" then withEntry + ["::" + instance] else withEntry;
    JoinThree(parts);
    Join(parts, "")
  }

  /** Joining at most three strings with no separator concatenates them. */
  lemma JoinThree(parts: seq<string>)
    requires |parts| <= 3
    ensures Join(parts, "") == if |parts| == 0 then "" else if |parts| == 1 then parts[0]
      else if |parts| == 2 then parts[0] + parts[1] else parts[0] + parts[1] + parts[2]
  {
    if |parts| == 3 {
      assert Join(parts[1..], "") == parts[1] + parts[2] by { assert parts[1..][1..] == [parts[2]]; }
    } else if |parts| == 2 {
      assert parts[1..] == [parts[1]];
    }
  }

  /** The file section: the longest prefix without ':'. */
  function GetFile(address: AddrStr): (r: string)
    ensures r <= address && ':' !in r
    ensures |r| == |address| || address[|r|] == ':'
  {
    var parts := Split(address, ":");
    SplitFirst(address, ":", parts[0]);
    FreeOfChar(parts[0], ':');
    if |parts| > 0 then parts[0] else ""
  }

  /** Everything before the first "::", i.e. the file and entry sections together. */
  function GetEntry(address: AddrStr): (r: string)
    ensures r <= address && Free(r, "::")
    ensures |r| == |address| || OccursAt(address, "::", |r|)
    ensures forall j :: 0 <= j < |r| ==> !OccursAt(address, "::", j)
  {
    var parts := Split(address, "::");
    SplitFirst(address, "::", parts[0]);
    if |parts| > 0 then parts[0] else ""
  }

  /** `r` occupies `address` from index `start` up to the next ':' or the end. */
  predicate SectionAt(address: string, start: nat, r: string) {
    start + |r| <= |address| && address[start..start + |r|] == r
    && (start + |r| == |address| || address[start + |r|] == ':')
  }

  /** The entry section: the text between the first ':' and the next ':' or the end. */
  function GetEntrySection(address: AddrStr): (r: string)
    ensures ':' !in r
    ensures ':' !in address ==> r == ""
    ensures ':' in address ==> SectionAt(address, |GetFile(address)| + 1, r)
  {
    var parts := Split(address, ":");
    EntrySectionFacts(address, parts);
    if |parts| >= 2 then parts[1] else ""
  }

  lemma EntrySectionFacts(address: AddrStr, parts: seq<string>)
    requires parts == Split(address, ":")
    ensures |parts| >= 2 <==> ':' in address
    ensures |parts| >= 2 ==> ':' !in parts[1] && SectionAt(address, |parts[0]| + 1, parts[1])
  {
    FreeOfChar(address, ':');
    IndexOfFirst(address, ":");
    match IndexOf(address, ":")
    case None =>
    case Some(i) =>
      assert parts == [address[..i]] + Split(address[i + 1..], ":");
      SecondPiece(address, i, parts[1]);
  }

  /** The piece after the colon at index `i` runs up to the next ':' or the end. */
  lemma SecondPiece(address: AddrStr, i: nat, piece: string)
    requires i < |address| && piece == Split(address[i + 1..], ":")[0]
    ensures ':' !in piece && SectionAt(address, i + 1, piece)
  {
    var rest := address[i + 1..];
    SplitFirst(rest, ":", piece);
    FreeOfChar(piece, ':');
    assert address[i + 1..i + 1 + |piece|] == rest[..|piece|];
  }

  /**
    The instance section: piece 3 of the split on ':' (after "file", "entry" and
    the empty piece of "::"), i.e. the text after the third ':' up to the next
    ':' or the end.
  */
  function GetInstanceSection(address: AddrStr): (r: string)
    ensures ':' !in r
    ensures CountChar(address, ':') < 3 ==> r == ""
    ensures CountChar(address, ':') >= 3 ==>
      exists k :: 0 < k <= |address| && address[k - 1] == ':' && CountChar(address[..k], ':') == 3 && SectionAt(address, k, r)
  {
    var parts := Split(address, ":");
    SplitCount(address, ':');
    if |parts| >= 4 then
      ThirdColonPiece(address, parts[3]);
      parts[3]
    else ""
  }

  /** Piece 3 of the split on ':' is colon-free and sits just after the third ':'. */
  lemma ThirdColonPiece(address: AddrStr, piece: string)
    requires |Split(address, ":")| >= 4 && piece == Split(address, ":")[3]
    ensures ':' !in piece
    ensures exists k :: 0 < k <= |address| && address[k - 1] == ':' && CountChar(address[..k], ':') == 3 && SectionAt(address, k, piece)
  {
    SplitPieceFree(address, ":", 3);
    FreeOfChar(piece, ':');
    var k := SplitPieceAt(address, ':', 3, piece);
    assert SectionAt(address, k, piece);
  }

  /** The leaf name: the longest suffix containing neither ':' nor '.'. */
  function GetName(address: AddrStr): (r: string)
    ensures ':' !in r && '.' !in r
    ensures |r| <= |address| && address[|address| - |r|..] == r
    ensures |r| == |address| || address[|address| - |r| - 1] == ':' || address[|address| - |r| - 1] == '.'
  {
    var parts := Split(address, ":");
    if |parts| > 0 then
      var lastPart := parts[|parts| - 1];
      var nameParts := Split(lastPart, ".");
      SplitLast(address, ":", lastPart);
      SplitLast(lastPart, ".", nameParts[|nameParts| - 1]);
      SegmentCompose(address, lastPart, nameParts[|nameParts| - 1], ':', '.');
      if |nameParts| > 0 then nameParts[|nameParts| - 1] else ""
    else ""
  }

  /** A segment at the end of a segment at the end of `s` is a segment at the end of `s`. */
  lemma SegmentCompose(s: string, outer: string, inner: string, c: char, d: char)
    requires SegmentAtEnd(s, outer, c) && SegmentAtEnd(outer, inner, d) && c !in outer
    ensures c !in inner
    ensures |inner| <= |s| && s[|s| - |inner|..] == inner
    ensures |inner| == |s| || s[|s| - |inner| - 1] == c || s[|s| - |inner| - 1] == d
  {
    var k := |outer| - |inner|;
    assert inner == outer[k..];
    assert forall x :: x in inner ==> x in outer;
    assert s[|s| - |outer|..][k..] == s[|s| - |inner|..];
    if |inner| < |outer| {
      assert s[|s| - |inner| - 1] == outer[k - 1];
    }
  }

  /** The entry section, or an `AddressError` when it is empty. */
  function EntrySection(address: AddrStr): (r: Result<string, Error>)
    ensures r.Ok? <==> GetEntrySection(address) != ""
    ensures r.Ok? ==> r.value == GetEntrySection(address)
    ensures r.Err? ==> r.error == AddressError(NoEntrySection)
  {
    var entry := GetEntrySection(address);
    if entry != "" then Ok(entry) else Err(AddressError(NoEntrySection))
  }

  /**
    Extends the instance path by one name: ".name" onto an existing instance
    section, "::name" onto an entry section; an empty name changes nothing.
  */
  function AddInstance(address: AddrStr, instance: string): (r: Result<AddrStr, Error>)
    ensures r.Err? <==> instance != "" && GetInstanceSection(address) == "" && GetEntrySection(address) == ""
    ensures r.Err? ==> r.error == AddressError(InstanceWithoutEntry)
    ensures instance == "" ==> r == Ok(address)
    ensures r.Ok? && instance != "" ==>
      r.value == address + (if GetInstanceSection(address) != "" then "." else "::") + instance
  {
    if instance == "" then Ok(address)
    else
      var currentInstance := GetInstanceSection(address);
      var entrySection := GetEntrySection(address);
      if currentInstance != "" then Ok(address + "." + instance)
      else if entrySection != "" then Ok(address + "::" + instance)
      else Err(AddressError(InstanceWithoutEntry))
  }

  /**
    `AddInstance` over each name in turn; the first failure is returned and the
    partial result discarded.
  */
  function AddInstances(address: AddrStr, instances: seq<string>): (r: Result<AddrStr, Error>)
    ensures r.Ok? ==> address <= r.value
    ensures r.Err? ==> r.error == AddressError(InstanceWithoutEntry)
    decreases |instances|
  {
    if |instances| == 0 then Ok(address)
    else
      match AddInstance(address, instances[0])
      case Err(e) => Err(e)
      case Ok(next) => AddInstances(next, instances[1..])
  }

  /**
    Extends the entry path by one name: ":name" when there is no entry section
    yet, ".name" otherwise; an address with an instance section cannot be extended.
  */
  function AddEntry(address: AddrStr, entry: string): (r: Result<AddrStr, Error>)
    ensures r.Err? <==> GetInstanceSection(address) != ""
    ensures r.Err? ==> r.error == AddressError(EntryOnInstance)
    ensures r.Ok? ==> r.value == address + (if GetEntrySection(address) == "" then ":" else ".") + entry
  {
    if GetInstanceSection(address) != "" then Err(AddressError(EntryOnInstance))
    else if GetEntrySection(address) == "" then Ok(address + ":" + entry)
    else Ok(address + "." + entry)
  }

  /** `AddEntry` over each name in turn, stopping at the first failure. */
  function AddEntries(address: AddrStr, entries: seq<string>): (r: Result<AddrStr, Error>)
    ensures r.Ok? ==> address <= r.value
    ensures r.Err? ==> r.error == AddressError(EntryOnInstance)
    decreases |entries|
  {
    if |entries| == 0 then Ok(address)
    else
      match AddEntry(address, entries[0])
      case Err(e) => Err(e)
      case Ok(next) => AddEntries(next, entries[1..])
  }

  /**
    Rewrites the file section relative to `basePath`, keeping the entry and
    instance sections. `rel` stands for the host's `filepath.Rel`, which either
    gives a relative path or fails with a message.
  */
  function GetRelativeAddrStr(address: AddrStr, basePath: string,
                              rel: (string, string) -> Result<string, string>): (r: Result<AddrStr, Error>)
    ensures GetFile(address) == "" ==> r == Ok(address)
    ensures GetFile(address) != "" && rel(basePath, GetFile(address)).Err? ==>
      r == Err(PathError(RelativePathFailed + rel(basePath, GetFile(address)).error))
  {
    var file := GetFile(address);
    if file == "" then Ok(address)
    else
      match rel(basePath, file)
      case Err(cause) => Err(PathError(RelativePathFailed + cause))
      case Ok(relFile) => Ok(FromParts(relFile, GetEntrySection(address), GetInstanceSection(address)))
  }
}
