/**
  Properties of the address grammar: composing an address from its sections and
  reading them back, extending it by instance and entry names one at a time or
  by folds, and relativising its file section.
*/
module AddressProperties {
  import opened Outcomes
  import opened GoStrings
  import opened Address

  /** An address composed from non-empty, colon-free file and entry splits into exactly its sections. */
  lemma ColonPieces(file: string, entry: string, instance: string)
    requires file != "" && entry != ""
    requires ':' !in file && ':' !in entry && ':' !in instance
    ensures Split(FromParts(file, entry, instance), ":") == if instance == "" then [file, entry] else [file, entry, "", instance]
  {
    var a := FromParts(file, entry, instance);
    if instance == "" {
      var parts := [file, entry];
      assert parts[1..] == [entry];
      assert Join(parts, [':']) == a;
      SplitJoin(parts, ':');
    } else {
      var parts := [file, entry, "", instance];
      assert parts[1..] == [entry, "", instance];
      assert parts[1..][1..] == ["", instance];
      assert parts[1..][1..][1..] == [instance];
      assert Join(parts[1..][1..], [':']) == "" + [':'] + instance;
      assert Join(parts[1..], [':']) == entry + [':'] + ("" + [':'] + instance);
      assert Join(parts, [':']) == file + [':'] + (entry + [':'] + ("" + [':'] + instance));
      assert Join(parts, [':']) == a;
      SplitJoin(parts, ':');
    }
  }

  /** A file and entry without colons, entry non-empty, contain no "::". */
  lemma NoDoubleColonBefore(file: string, entry: string, s: string)
    requires entry != "" && ':' !in file && ':' !in entry
    requires file + ":" + entry <= s
    ensures forall j :: 0 <= j < |file| + 1 + |entry| ==> !OccursAt(s, "::", j)
  {
    var p := file + ":" + entry;
    forall j | 0 <= j < |p| ensures !OccursAt(s, "::", j) {
      if j + 2 <= |s| {
        assert s[j..j + 2] == [s[j], s[j + 1]];
        if j < |file| {
          assert s[j] == file[j];
        } else if j == |file| {
          assert s[j + 1] == entry[0];
        } else {
          assert s[j] == entry[j - |file| - 1];
        }
      }
    }
  }

  /** When the first occurrence of `sep` is at `n`, or there is none and `n` is the length, the first piece is `s[..n]`. */
  lemma FirstPieceAt(s: string, sep: string, n: nat)
    requires |sep| > 0 && n <= |s|
    requires forall j :: 0 <= j < n ==> !OccursAt(s, sep, j)
    requires OccursAt(s, sep, n) || (n == |s| && Free(s, sep))
    ensures Split(s, sep)[0] == s[..n]
  {
    IndexOfFirst(s, sep);
  }

  /**
    Round trip: the accessors read back the sections `FromParts` was given, when
    file and entry are non-empty and no section contains ':'.
  */
  lemma FromPartsRoundTrip(file: string, entry: string, instance: string)
    requires file != "" && entry != ""
    requires ':' !in file && ':' !in entry && ':' !in instance
    ensures GetFile(FromParts(file, entry, instance)) == file
    ensures GetEntrySection(FromParts(file, entry, instance)) == entry
    ensures GetInstanceSection(FromParts(file, entry, instance)) == instance
    ensures GetEntry(FromParts(file, entry, instance)) == file + ":" + entry
  {
    var a := FromParts(file, entry, instance);
    ColonPieces(file, entry, instance);
    var n := |file| + 1 + |entry|;
    NoDoubleColonBefore(file, entry, a);
    if instance == "" {
      assert Free(a, "::");
      assert a[..n] == a;
    } else {
      assert a[n..n + 2] == "::";
      assert a[..n] == file + ":" + entry;
    }
    FirstPieceAt(a, "::", n);
  }

  /** With no entry, `FromParts` gives the file alone: the instance is dropped and no section is read back. */
  lemma FromPartsWithoutEntry(file: string, instance: string)
    requires ':' !in file
    ensures FromParts(file, "", instance) == file
    ensures GetFile(FromParts(file, "", instance)) == file
    ensures GetEntrySection(FromParts(file, "", instance)) == ""
    ensures GetInstanceSection(FromParts(file, "", instance)) == ""
  {
    CountCharAbsent(file, ':');
  }

  /**
    With no file, `FromParts` writes the entry first and the accessors read it
    back as the file: neither an entry nor an instance section is seen.
  */
  lemma FromPartsWithoutFile(entry: string, instance: string)
    requires entry != "" && ':' !in entry && ':' !in instance
    ensures GetFile(FromParts("", entry, instance)) == entry
    ensures GetEntrySection(FromParts("", entry, instance)) == ""
    ensures GetInstanceSection(FromParts("", entry, instance)) == ""
  {
    var a := FromParts("", entry, instance);
    if instance == "" {
      assert Join([entry], [':']) == a;
      SplitJoin([entry], ':');
    } else {
      var parts := [entry, "", instance];
      assert parts[1..] == ["", instance];
      assert parts[1..][1..] == [instance];
      assert Join(parts[1..], [':']) == "" + [':'] + instance;
      assert Join(parts, [':']) == entry + [':'] + ("" + [':'] + instance);
      assert Join(parts, [':']) == a;
      SplitJoin(parts, ':');
    }
  }

  /** A suffix free of ':' and '.' that follows a ':' or a '.' is the leaf name. */
  lemma NameOfSuffix(s: string, name: string)
    requires ':' !in name && '.' !in name
    requires |name| < |s| && s[|s| - |name|..] == name
    requires s[|s| - |name| - 1] == ':' || s[|s| - |name| - 1] == '.'
    ensures GetName(s) == name
  {
    var r := GetName(s);
    assert forall k :: 0 <= k < |r| ==> r[k] == s[|s| - |r| + k];
    assert forall k :: 0 <= k < |name| ==> name[k] == s[|s| - |name| + k];
    assert |r| == |name|;
  }

  /** The name just added as an instance is the address's leaf name. */
  lemma AddInstanceName(address: AddrStr, name: string)
    requires name != "" && ':' !in name && '.' !in name
    requires AddInstance(address, name).Ok?
    ensures GetName(AddInstance(address, name).value) == name
  {
    var r := AddInstance(address, name).value;
    assert r[|r| - |name|..] == name;
    NameOfSuffix(r, name);
  }

  /** The name just added as an entry is the address's leaf name. */
  lemma AddEntryName(address: AddrStr, name: string)
    requires ':' !in name && '.' !in name
    requires AddEntry(address, name).Ok?
    ensures GetName(AddEntry(address, name).value) == name
  {
    var r := AddEntry(address, name).value;
    assert r[|r| - |name|..] == name;
    NameOfSuffix(r, name);
  }

  /** The instance path after appending `name`: unchanged for an empty name, otherwise dot-joined. */
  function Dotted(path: string, name: string): string {
    if name == "" then path else if path == "" then name else path + "." + name
  }

  /** Adding an instance to a composed address composes the extended instance path. */
  lemma AddInstanceFromParts(file: string, entry: string, instance: string, name: string)
    requires file != "" && entry != ""
    requires ':' !in file && ':' !in entry && ':' !in instance && ':' !in name
    ensures AddInstance(FromParts(file, entry, instance), name) == Ok(FromParts(file, entry, Dotted(instance, name)))
  {
    var a := FromParts(file, entry, instance);
    FromPartsRoundTrip(file, entry, instance);
    if name != "" && instance != "" {
      var prefix := file + ":" + entry + "::";
      ConcatAssoc(prefix, instance + ".", name);
      ConcatAssoc(prefix, instance, ".");
    }
  }

  lemma ConcatAssoc(x: string, y: string, z: string)
    ensures x + (y + z) == x + y + z
  {
  }

  /** Adding an entry to a composed address without instance composes the extended entry path. */
  lemma AddEntryFromParts(file: string, entry: string, name: string)
    requires file != "" && ':' !in file && ':' !in entry && ':' !in name
    requires entry != "" || name != ""
    ensures AddEntry(FromParts(file, entry, ""), name) == Ok(FromParts(file, if entry == "" then name else entry + "." + name, ""))
  {
    var a := FromParts(file, entry, "");
    if entry == "" {
      FromPartsWithoutEntry(file, "");
      assert AddEntry(a, name) == Ok(file + ":" + name);
    } else {
      FromPartsRoundTrip(file, entry, "");
      assert a == file + ":" + entry;
      assert AddEntry(a, name) == Ok(a + "." + name);
      assert a + "." + name == file + ":" + (entry + "." + name);
      assert FromParts(file, entry + "." + name, "") == file + ":" + (entry + "." + name);
    }
  }

  /** A composed address with an instance section cannot take another entry. */
  lemma AddEntryOnInstance(file: string, entry: string, instance: string, name: string)
    requires file != "" && entry != "" && instance != ""
    requires ':' !in file && ':' !in entry && ':' !in instance
    ensures AddEntry(FromParts(file, entry, instance), name) == Err(AddressError(EntryOnInstance))
  {
    FromPartsRoundTrip(file, entry, instance);
  }

  /** Folding over a concatenation folds over the second list from the result of the first. */
  lemma {:induction false} AddInstancesConcat(address: AddrStr, xs: seq<string>, ys: seq<string>)
    ensures AddInstances(address, xs + ys) ==
      match AddInstances(address, xs)
      case Ok(next) => AddInstances(next, ys)
      case Err(e) => Err(e)
    decreases |xs|
  {
    if |xs| == 0 {
      assert xs + ys == ys;
    } else {
      assert (xs + ys)[1..] == xs[1..] + ys;
      match AddInstance(address, xs[0])
      case Err(_) =>
      case Ok(next) => AddInstancesConcat(next, xs[1..], ys);
    }
  }

  /** Two names at once are the same as two single additions. */
  lemma AddInstancesPair(address: AddrStr, x: string, y: string)
    ensures AddInstances(address, [x, y]) ==
      match AddInstance(address, x)
      case Ok(next) => AddInstance(next, y)
      case Err(e) => Err(e)
  {
    assert [x, y][1..] == [y];
    assert [y][1..] == [];
    match AddInstance(address, x)
    case Err(_) =>
    case Ok(next) =>
      assert AddInstances(address, [x, y]) == AddInstances(next, [y]);
      match AddInstance(next, y)
      case Err(_) =>
      case Ok(last) =>
        assert AddInstances(next, [y]) == AddInstances(last, []);
  }

  /** The non-empty strings of `names`, in order. */
  function NonEmpty(names: seq<string>): seq<string> {
    if |names| == 0 then []
    else (if names[0] == "" then [] else [names[0]]) + NonEmpty(names[1..])
  }

  lemma NonEmptyCons(x: string, ys: seq<string>)
    ensures NonEmpty([x] + ys) == (if x == "" then [] else [x]) + NonEmpty(ys)
  {
    assert ([x] + ys)[1..] == ys;
  }

  /** Joining with '.' is unaffected by first merging the first two names with a '.'. */
  lemma JoinMerge(x: string, y: string, rest: seq<string>)
    ensures Join([x + "." + y] + rest, ".") == Join([x, y] + rest, ".")
  {
    assert ([x, y] + rest)[1..] == [y] + rest;
    assert ([x + "." + y] + rest)[1..] == rest;
    if rest != [] {
      assert ([y] + rest)[1..] == rest;
      ConcatAssoc(x + ".", y, "." + Join(rest, "."));
      ConcatAssoc(x, ".", y + "." + Join(rest, "."));
    } else {
      assert [y] + rest == [y];
    }
  }

  lemma JoinDotted(instance: string, name: string, rest: seq<string>)
    ensures Join(NonEmpty([Dotted(instance, name)] + rest), ".") == Join(NonEmpty([instance] + ([name] + rest)), ".")
  {
    NonEmptyDotted(instance, name, rest);
    if name != "" && instance != "" {
      JoinMerge(instance, name, NonEmpty(rest));
    }
  }

  lemma NonEmptyDotted(instance: string, name: string, rest: seq<string>)
    ensures name == "" || instance == "" ==> NonEmpty([Dotted(instance, name)] + rest) == NonEmpty([instance] + ([name] + rest))
    ensures name != "" && instance != "" ==>
      && NonEmpty([instance] + ([name] + rest)) == [instance, name] + NonEmpty(rest)
      && NonEmpty([Dotted(instance, name)] + rest) == [instance + "." + name] + NonEmpty(rest)
  {
    var tail := NonEmpty(rest);
    NonEmptyCons(name, rest);
    NonEmptyCons(instance, [name] + rest);
    if name == "" {
      assert Dotted(instance, name) == instance;
      NonEmptyCons(instance, rest);
    } else if instance == "" {
      assert Dotted(instance, name) == name;
      NonEmptyCons(name, rest);
    } else {
      var dotted := instance + "." + name;
      assert Dotted(instance, name) == dotted && dotted != "";
      NonEmptyCons(dotted, rest);
      assert NonEmpty([instance] + ([name] + rest)) == [instance] + ([name] + tail);
    }
  }

  /**
    Adding a list of colon-free names to a composed address composes the
    instance path made of the existing path and the non-empty names, joined by '.'.
  */
  lemma {:induction false} AddInstancesFromParts(file: string, entry: string, instance: string, names: seq<string>)
    requires file != "" && entry != ""
    requires ':' !in file && ':' !in entry && ':' !in instance
    requires forall k :: 0 <= k < |names| ==> ':' !in names[k]
    ensures AddInstances(FromParts(file, entry, instance), names) ==
      Ok(FromParts(file, entry, Join(NonEmpty([instance] + names), ".")))
    decreases |names|
  {
    if |names| == 0 {
      NonEmptyCons(instance, []);
      assert [instance] + names == [instance] + [];
    } else {
      var name := names[0];
      var rest := names[1..];
      AddInstanceFromParts(file, entry, instance, name);
      AddInstancesFromParts(file, entry, Dotted(instance, name), rest);
      JoinDotted(instance, name, rest);
      assert names == [name] + rest;
    }
  }

  /**
    On an address with neither entry nor instance section, the fold fails
    exactly when some name is non-empty (empty names change nothing).
  */
  lemma {:induction false} AddInstancesWithoutEntry(address: AddrStr, names: seq<string>)
    requires GetEntrySection(address) == "" && GetInstanceSection(address) == ""
    ensures AddInstances(address, names).Err? <==> exists k :: 0 <= k < |names| && names[k] != ""
    decreases |names|
  {
    if |names| > 0 && names[0] == "" {
      AddInstancesWithoutEntry(address, names[1..]);
      if exists k :: 0 <= k < |names| && names[k] != "" {
        var k :| 0 <= k < |names| && names[k] != "";
        assert names[1..][k - 1] != "";
      }
      if exists k :: 0 <= k < |names[1..]| && names[1..][k] != "" {
        var k :| 0 <= k < |names[1..]| && names[1..][k] != "";
        assert names[k + 1] != "";
      }
    }
  }

  /** Folding over a concatenation folds over the second list from the result of the first. */
  lemma {:induction false} AddEntriesConcat(address: AddrStr, xs: seq<string>, ys: seq<string>)
    ensures AddEntries(address, xs + ys) ==
      match AddEntries(address, xs)
      case Ok(next) => AddEntries(next, ys)
      case Err(e) => Err(e)
    decreases |xs|
  {
    if |xs| == 0 {
      assert xs + ys == ys;
    } else {
      assert (xs + ys)[1..] == xs[1..] + ys;
      match AddEntry(address, xs[0])
      case Err(_) =>
      case Ok(next) => AddEntriesConcat(next, xs[1..], ys);
    }
  }

  /**
    Adding a list of colon-free names to a composed address without instance
    composes the entry path made of the existing entry and the names, joined by '.'.
  */
  lemma {:induction false} AddEntriesFromParts(file: string, entry: string, names: seq<string>)
    requires file != "" && ':' !in file && ':' !in entry
    requires forall k :: 0 <= k < |names| ==> ':' !in names[k]
    requires entry != "" || names == [] || names[0] != ""
    ensures AddEntries(FromParts(file, entry, ""), names) ==
      Ok(FromParts(file, Join(NonEmpty([entry]) + names, "."), ""))
    decreases |names|
  {
    if |names| == 0 {
      NonEmptyCons(entry, []);
      assert NonEmpty([entry]) + names == NonEmpty([entry]);
    } else {
      var name := names[0];
      var rest := names[1..];
      var extended := if entry == "" then name else entry + "." + name;
      AddEntryFromParts(file, entry, name);
      AddEntriesFromParts(file, extended, rest);
      EntryPathStep(entry, name, rest);
      assert names == [name] + rest;
    }
  }

  /** Extending the entry path by one name before joining the rest gives the same dotted path. */
  lemma EntryPathStep(entry: string, name: string, rest: seq<string>)
    requires entry != "" || name != ""
    ensures var extended := if entry == "" then name else entry + "." + name;
      Join(NonEmpty([extended]) + rest, ".") == Join(NonEmpty([entry]) + ([name] + rest), ".")
  {
    var extended := if entry == "" then name else entry + "." + name;
    NonEmptyCons(entry, []);
    NonEmptyCons(extended, []);
    if entry != "" {
      assert NonEmpty([entry]) + ([name] + rest) == [entry, name] + rest;
      JoinMerge(entry, name, rest);
    } else {
      assert NonEmpty([entry]) + ([name] + rest) == [name] + rest;
    }
  }

  /** A non-empty list of entries cannot be added to an address that has an instance section. */
  lemma AddEntriesOnInstance(address: AddrStr, names: seq<string>)
    requires GetInstanceSection(address) != "" && |names| > 0
    ensures AddEntries(address, names) == Err(AddressError(EntryOnInstance))
  {
  }

  /**
    Relativising a composed address replaces its file by the relative path and
    keeps its entry and instance sections, which read back unchanged.
  */
  lemma RelativeFromParts(file: string, entry: string, instance: string, basePath: string,
                          rel: (string, string) -> Result<string, string>)
    requires file != "" && entry != ""
    requires ':' !in file && ':' !in entry && ':' !in instance
    requires rel(basePath, file).Ok?
    ensures GetRelativeAddrStr(FromParts(file, entry, instance), basePath, rel) ==
      Ok(FromParts(rel(basePath, file).value, entry, instance))
    ensures var relFile := rel(basePath, file).value;
      relFile != "" && ':' !in relFile ==>
        var relative := FromParts(relFile, entry, instance);
        GetFile(relative) == relFile && GetEntrySection(relative) == entry && GetInstanceSection(relative) == instance
  {
    FromPartsRoundTrip(file, entry, instance);
    var relFile := rel(basePath, file).value;
    if relFile != "" && ':' !in relFile {
      FromPartsRoundTrip(relFile, entry, instance);
    }
  }

  /** The literal cases of the tests of `FromParts`. */
  lemma FromPartsExamples()
    ensures FromParts("test.ato", "", "") == "test.ato"
    ensures FromParts("test.ato", "Module", "") == "test.ato:Module"
    ensures FromParts("test.ato", "Module", "instance") == "test.ato:Module::instance"
  {
  }

  /** The literal case of the test of `GetFile`: "path/to/file.ato:Entry::instance". */
  lemma GetFileExample(file: string, entry: string, instance: string)
    requires file == "path/to/file.ato" && entry == "Entry" && instance == "instance"
    ensures GetFile(file + ":" + entry + "::" + instance) == "path/to/file.ato"
  {
    FromPartsRoundTrip(file, entry, instance);
  }

  /** The literal case of the test of `GetEntrySection`: "file.ato:Module.Entry::instance". */
  lemma GetEntrySectionExample(file: string, entry: string, instance: string)
    requires file == "file.ato" && entry == "Module.Entry" && instance == "instance"
    ensures GetEntrySection(file + ":" + entry + "::" + instance) == "Module.Entry"
  {
    FromPartsRoundTrip(file, entry, instance);
  }

  /** The literal case of the test of `GetInstanceSection`: "file.ato:Entry::instance.path". */
  lemma GetInstanceSectionExample(file: string, entry: string, instance: string)
    requires file == "file.ato" && entry == "Entry" && instance == "instance.path"
    ensures GetInstanceSection(file + ":" + entry + "::" + instance) == "instance.path"
  {
    FromPartsRoundTrip(file, entry, instance);
  }

  /** A literal case of the tests of `GetName`: the leaf of an instance path. */
  lemma NameOfInstanceExample(address: AddrStr)
    requires address == "file.ato:Entry::instance.path"
    ensures GetName(address) == "path"
  {
    NameOfSuffix(address, "path");
  }

  /** A literal case of the tests of `GetName`: the entry of an address without instance. */
  lemma NameOfModuleExample(address: AddrStr)
    requires address == "file.ato:Module"
    ensures GetName(address) == "Module"
  {
    NameOfSuffix(address, "Module");
  }

  /** A literal case of the tests of `GetName`: an address without any separator is its own name. */
  lemma NameOfBareExample(address: AddrStr)
    requires address == "simple"
    ensures GetName(address) == "simple"
  {
    var r := GetName(address);
    assert forall k :: 0 <= k < |r| ==> r[k] == address[|address| - |r| + k];
  }

  /** The literal case of the test of `AddInstance`: "instance1" added to "file.ato:Entry". */
  lemma AddInstanceExample(file: string, entry: string, name: string)
    requires file == "file.ato" && entry == "Entry" && name == "instance1"
    ensures AddInstance(file + ":" + entry, name) == Ok(file + ":" + entry + "::" + name)
  {
    AddInstanceFromParts(file, entry, "", name);
  }

  /** The literal case of the test of `AddEntry`: "Module" added to "file.ato". */
  lemma AddEntryExample(file: string, entry: string)
    requires file == "file.ato" && entry == "Module"
    ensures AddEntry(file, entry) == Ok(file + ":" + entry)
  {
    FromPartsWithoutEntry(file, "");
    AddEntryFromParts(file, "", entry);
  }
}
