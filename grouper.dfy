/**
 * The scan (`scanForDuplicates`): every file of the ROM folder that is not
 * part of a multi-part set is filed under its base name; the names filed
 * under a key shared by two or more of them form a duplicate group, sorted.
 *
 * The facts about filing and grouping hold for any way of filing entries,
 * so they are stated for a filing function `file`; the scan uses `Filing`.
 */
module Grouper {
  import opened Wrappers
  import opened JsText
  import opened MultiPart
  import opened BaseName
  import opened StringOrder

  /** A folder entry as the directory iterator yields it. */
  datatype Entry = Entry(name: string, isFile: bool)

  /**
   * Where the scan files an entry: nowhere for a folder or a member of a
   * multi-part set, nowhere for an empty base name, else under its base name.
   */
  function Filing(e: Entry): (r: Option<string>)
    ensures r.Some? <==> e.isFile && !IsMultiPart(e.name) && GetBaseName(e.name) != ""
    ensures r.Some? ==> r.value == GetBaseName(e.name)
  {
    if !e.isFile then None
    else if IsMultiPart(e.name) then None
    else
      var base := GetBaseName(e.name);
      if base != "" then Some(base) else None
  }

  /** Letter case in a file name does not change where the scan files it. */
  lemma FilingIgnoresCase(e: Entry)
    ensures Filing(Entry(Lower(e.name), e.isFile)) == Filing(e)
  {
    IsMultiPartIgnoresCase(e.name);
    BaseNameIgnoresCase(e.name);
  }

  /** The names filed under `key`, in the order the entries come. */
  function NamesFor(entries: seq<Entry>, key: string, file: Entry -> Option<string>): (r: seq<string>)
    ensures |r| <= |entries|
  {
    if entries == [] then []
    else
      var last := entries[|entries| - 1];
      NamesFor(entries[..|entries| - 1], key, file) + (if file(last) == Some(key) then [last.name] else [])
  }

  /**
   * A key is present exactly when two or more names are filed under it, and
   * then it holds those names, sorted.
   */
  ghost predicate GroupsOf(entries: seq<Entry>, groups: map<string, seq<string>>, file: Entry -> Option<string>) {
    && (forall k :: k in groups <==> |NamesFor(entries, k, file)| > 1)
    && (forall k :: k in groups ==> Sorted(groups[k]) && multiset(groups[k]) == multiset(NamesFor(entries, k, file)))
  }

  /** What the scan leaves in `duplicateGroups`. */
  ghost predicate DuplicateGroups(entries: seq<Entry>, groups: map<string, seq<string>>) {
    GroupsOf(entries, groups, Filing)
  }

  /** An entry filed nowhere adds no name. */
  lemma NamesForSkip(entries: seq<Entry>, i: nat, file: Entry -> Option<string>)
    requires i < |entries| && file(entries[i]) == None
    ensures forall k :: NamesFor(entries[..i + 1], k, file) == NamesFor(entries[..i], k, file)
  {
    assert entries[..i + 1][..i] == entries[..i];
  }

  /** An entry filed under `key` adds its name to that key's list and to no other. */
  lemma NamesForFile(entries: seq<Entry>, i: nat, file: Entry -> Option<string>, key: string)
    requires i < |entries| && file(entries[i]) == Some(key)
    ensures NamesFor(entries[..i + 1], key, file) == NamesFor(entries[..i], key, file) + [entries[i].name]
    ensures forall k :: k != key ==> NamesFor(entries[..i + 1], k, file) == NamesFor(entries[..i], k, file)
  {
    assert entries[..i + 1][..i] == entries[..i];
  }

  /**
   * The scan: `potentialDuplicates` is filled key by key in the order the
   * entries come, then the keys with more than one name are kept, each list
   * sorted in place.
   */
  method ScanForDuplicates(entries: seq<Entry>) returns (groups: map<string, seq<string>>)
    ensures DuplicateGroups(entries, groups)
  {
    var candidates := FileEntries(entries);
    groups := KeepDuplicates(candidates);
  }

  /** The first loop of the scan: `potentialDuplicates`, one list of names per key. */
  method FileEntries(entries: seq<Entry>) returns (candidates: map<string, seq<string>>)
    ensures forall k :: k in candidates <==> NamesFor(entries, k, Filing) != []
    ensures forall k :: k in candidates ==> candidates[k] == NamesFor(entries, k, Filing)
  {
    candidates := map[];
    for i := 0 to |entries|
      invariant forall k :: k in candidates <==> NamesFor(entries[..i], k, Filing) != []
      invariant forall k :: k in candidates ==> candidates[k] == NamesFor(entries[..i], k, Filing)
    {
      var entry := entries[i];
      if !entry.isFile {
        SkipEntry(entries, i, candidates, Filing);
        continue;
      }
      if IsMultiPart(entry.name) {
        SkipEntry(entries, i, candidates, Filing);
        continue;
      }
      var base := GetBaseName(entry.name);
      if base != "" {
        AddEntry(entries, i, candidates, base, Filing);
        if base !in candidates {
          candidates := candidates[base := []];
        }
        candidates := candidates[base := candidates[base] + [entry.name]];
      } else {
        SkipEntry(entries, i, candidates, Filing);
      }
    }
    assert entries[..|entries|] == entries;
  }

  /** Appending the name of an entry filed under `key` to that key's list keeps the lists right. */
  lemma AddEntry(entries: seq<Entry>, i: nat, candidates: map<string, seq<string>>, key: string, file: Entry -> Option<string>)
    requires i < |entries| && file(entries[i]) == Some(key)
    requires forall k :: k in candidates <==> NamesFor(entries[..i], k, file) != []
    requires forall k :: k in candidates ==> candidates[k] == NamesFor(entries[..i], k, file)
    ensures var after := candidates[key := (if key in candidates then candidates[key] else []) + [entries[i].name]];
            && (forall k :: k in after <==> NamesFor(entries[..i + 1], k, file) != [])
            && (forall k :: k in after ==> after[k] == NamesFor(entries[..i + 1], k, file))
  {
    NamesForFile(entries, i, file, key);
  }

  /** Passing over an entry the scan does not file keeps the lists right. */
  lemma SkipEntry(entries: seq<Entry>, i: nat, candidates: map<string, seq<string>>, file: Entry -> Option<string>)
    requires i < |entries| && file(entries[i]) == None
    requires forall k :: k in candidates <==> NamesFor(entries[..i], k, file) != []
    requires forall k :: k in candidates ==> candidates[k] == NamesFor(entries[..i], k, file)
    ensures forall k :: k in candidates <==> NamesFor(entries[..i + 1], k, file) != []
    ensures forall k :: k in candidates ==> candidates[k] == NamesFor(entries[..i + 1], k, file)
  {
    NamesForSkip(entries, i, file);
  }

  /**
   * The second loop of the scan: the keys with more than one name, each list
   * sorted. The map is walked in an arbitrary order; the result does not
   * depend on it.
   */
  method KeepDuplicates(candidates: map<string, seq<string>>) returns (groups: map<string, seq<string>>)
    ensures forall k :: k in groups <==> k in candidates && |candidates[k]| > 1
    ensures forall k :: k in groups ==> Sorted(groups[k]) && multiset(groups[k]) == multiset(candidates[k])
  {
    groups := map[];
    var pending := candidates.Keys;
    while pending != {}
      invariant pending <= candidates.Keys
      invariant forall k :: k in groups <==> k in candidates && k !in pending && |candidates[k]| > 1
      invariant forall k :: k in groups ==> Sorted(groups[k]) && multiset(groups[k]) == multiset(candidates[k])
      decreases |pending|
    {
      var base :| base in pending;
      var files := candidates[base];
      if |files| > 1 {
        var a := new string[|files|](k requires 0 <= k < |files| => files[k]);
        assert a[..] == files;
        SortInPlace(a);
        groups := groups[base := a[..]];
      }
      pending := pending - {base};
    }
  }

  // ---------------------------------------------------------------------
  // What the groups are

  /** A name is filed under `key` exactly when some entry with that name is. */
  lemma {:induction false} NamesForMembers(entries: seq<Entry>, key: string, n: string, file: Entry -> Option<string>)
    ensures n in NamesFor(entries, key, file)
        <==> exists i :: 0 <= i < |entries| && entries[i].name == n && file(entries[i]) == Some(key)
    decreases |entries|
  {
    if entries != [] {
      var init := entries[..|entries| - 1];
      NamesForMembers(init, key, n, file);
      if n in NamesFor(init, key, file) {
        var i :| 0 <= i < |init| && init[i].name == n && file(init[i]) == Some(key);
        assert entries[i] == init[i];
      }
      if exists i :: 0 <= i < |entries| && entries[i].name == n && file(entries[i]) == Some(key) {
        var i :| 0 <= i < |entries| && entries[i].name == n && file(entries[i]) == Some(key);
        if i < |init| {
          assert init[i] == entries[i];
        }
      }
    }
  }

  /**
   * Every name of a group is a file of the folder, not part of a multi-part
   * set, whose base name is the group's key, and the key is not empty.
   */
  lemma GroupMember(entries: seq<Entry>, groups: map<string, seq<string>>, key: string, n: string)
    requires DuplicateGroups(entries, groups) && key in groups && n in groups[key]
    ensures key != "" && GetBaseName(n) == key && !IsMultiPart(n)
    ensures exists i :: 0 <= i < |entries| && entries[i] == Entry(n, true)
  {
    assert n in multiset(NamesFor(entries, key, Filing));
    NamesForMembers(entries, key, n, Filing);
    var i :| 0 <= i < |entries| && entries[i].name == n && Filing(entries[i]) == Some(key);
    assert entries[i] == Entry(n, true);
  }

  /** No name is in two groups. */
  lemma GroupsDisjoint(entries: seq<Entry>, groups: map<string, seq<string>>, k1: string, k2: string, n: string)
    requires DuplicateGroups(entries, groups) && k1 in groups && k2 in groups
    requires n in groups[k1] && n in groups[k2]
    ensures k1 == k2
  {
    GroupMember(entries, groups, k1, n);
    GroupMember(entries, groups, k2, n);
  }

  /** Two different entries filed under one key put two names under it. */
  lemma {:induction false} NamesForTwo(entries: seq<Entry>, key: string, i: nat, j: nat, file: Entry -> Option<string>)
    requires i < j < |entries| && file(entries[i]) == Some(key) && file(entries[j]) == Some(key)
    ensures |NamesFor(entries, key, file)| > 1
    decreases |entries|
  {
    var init := entries[..|entries| - 1];
    if j < |entries| - 1 {
      assert init[i] == entries[i] && init[j] == entries[j];
      NamesForTwo(init, key, i, j, file);
    } else {
      assert init[i] == entries[i];
      NamesForMembers(init, key, entries[i].name, file);
    }
  }

  /**
   * Completeness: a file that shares its non-empty base name with another
   * file, neither of them multi-part, is in the group of that name.
   */
  lemma SharedKeyIsGrouped(entries: seq<Entry>, groups: map<string, seq<string>>, i: nat, j: nat)
    requires DuplicateGroups(entries, groups)
    requires i < |entries| && j < |entries| && i != j
    requires entries[i].isFile && entries[j].isFile
    requires !IsMultiPart(entries[i].name) && !IsMultiPart(entries[j].name)
    requires GetBaseName(entries[i].name) != "" && GetBaseName(entries[j].name) == GetBaseName(entries[i].name)
    ensures GetBaseName(entries[i].name) in groups
    ensures entries[i].name in groups[GetBaseName(entries[i].name)]
  {
    var key := GetBaseName(entries[i].name);
    assert Filing(entries[i]) == Some(key) && Filing(entries[j]) == Some(key);
    if i < j {
      NamesForTwo(entries, key, i, j, Filing);
    } else {
      NamesForTwo(entries, key, j, i, Filing);
    }
    NamesForMembers(entries, key, entries[i].name, Filing);
    assert entries[i].name in multiset(groups[key]);
  }

  /** A folder holds each name once. */
  ghost predicate DistinctNames(entries: seq<Entry>) {
    forall x, y :: 0 <= x < y < |entries| ==> entries[x].name != entries[y].name
  }

  lemma {:induction false} NamesForOnce(entries: seq<Entry>, key: string, file: Entry -> Option<string>, n: string)
    requires DistinctNames(entries)
    ensures multiset(NamesFor(entries, key, file))[n] <= 1
    decreases |entries|
  {
    if entries != [] {
      var init := entries[..|entries| - 1];
      var last := entries[|entries| - 1];
      assert DistinctNames(init) by {
        assert forall x :: 0 <= x < |init| ==> init[x] == entries[x];
      }
      NamesForOnce(init, key, file, n);
      if file(last) == Some(key) && last.name == n {
        NamesForMembers(init, key, n, file);
      }
    }
  }

  lemma TwiceInList(s: seq<string>, x: nat, y: nat)
    requires x < y < |s| && s[x] == s[y]
    ensures multiset(s)[s[x]] >= 2
  {
    assert s == s[..y] + s[y..];
    assert s[x] in s[..y];
    assert s[y..][0] == s[y];
    assert multiset(s) == multiset(s[..y]) + multiset(s[y..]);
  }

  /** When the folder holds each name once, no group lists a name twice. */
  lemma GroupNamesDistinct(entries: seq<Entry>, groups: map<string, seq<string>>, k: string)
    requires DuplicateGroups(entries, groups) && DistinctNames(entries) && k in groups
    ensures forall x, y :: 0 <= x < y < |groups[k]| ==> groups[k][x] != groups[k][y]
  {
    forall x, y | 0 <= x < y < |groups[k]|
      ensures groups[k][x] != groups[k][y]
    {
      NamesForOnce(entries, k, Filing, groups[k][x]);
      if groups[k][x] == groups[k][y] {
        TwiceInList(groups[k], x, y);
      }
    }
  }

  // ---------------------------------------------------------------------
  // The groups do not depend on the order of the folder

  lemma {:induction false} NamesForAppend(a: seq<Entry>, b: seq<Entry>, key: string, file: Entry -> Option<string>)
    ensures NamesFor(a + b, key, file) == NamesFor(a, key, file) + NamesFor(b, key, file)
    decreases |b|
  {
    if b != [] {
      var bi := b[..|b| - 1];
      assert (a + b)[..|a + b| - 1] == a + bi;
      NamesForAppend(a, bi, key, file);
    } else {
      assert a + b == a;
    }
  }

  lemma RemoveOne(e1: seq<Entry>, e2: seq<Entry>, i: nat)
    requires e1 != [] && i < |e2| && e2[i] == e1[0] && multiset(e1) == multiset(e2)
    ensures multiset(e1[1..]) == multiset(e2[..i] + e2[i + 1..])
  {
    assert e1 == [e1[0]] + e1[1..];
    assert e2 == e2[..i] + [e2[i]] + e2[i + 1..];
    assert multiset(e1[1..]) == multiset(e1) - multiset([e1[0]]);
    assert multiset(e2[..i] + e2[i + 1..]) == multiset(e2) - multiset([e2[i]]);
  }

  lemma {:induction false} NamesForPermutation(e1: seq<Entry>, e2: seq<Entry>, key: string, file: Entry -> Option<string>)
    requires multiset(e1) == multiset(e2)
    ensures multiset(NamesFor(e1, key, file)) == multiset(NamesFor(e2, key, file))
    decreases |e1|
  {
    if e1 != [] {
      var x := e1[0];
      assert x in multiset(e2) by {
        assert x in e1;
      }
      var i :| 0 <= i < |e2| && e2[i] == x;
      RemoveOne(e1, e2, i);
      NamesForPermutation(e1[1..], e2[..i] + e2[i + 1..], key, file);
      NamesForFront(e1, key, file);
      NamesForPick(e2, i, key, file);
    }
  }

  /** The first entry's names, then the rest's. */
  lemma NamesForFront(e: seq<Entry>, key: string, file: Entry -> Option<string>)
    requires e != []
    ensures multiset(NamesFor(e, key, file)) == multiset(NamesFor([e[0]], key, file)) + multiset(NamesFor(e[1..], key, file))
  {
    assert e == [e[0]] + e[1..];
    NamesForAppend([e[0]], e[1..], key, file);
  }

  /** Taking entry `i` out of the middle removes exactly its names. */
  lemma NamesForPick(e: seq<Entry>, i: nat, key: string, file: Entry -> Option<string>)
    requires i < |e|
    ensures multiset(NamesFor(e, key, file))
         == multiset(NamesFor([e[i]], key, file)) + multiset(NamesFor(e[..i] + e[i + 1..], key, file))
  {
    var a, b := e[..i], e[i + 1..];
    assert e == (a + [e[i]]) + b;
    NamesForAppend(a + [e[i]], b, key, file);
    NamesForAppend(a, [e[i]], key, file);
    NamesForAppend(a, b, key, file);
  }

  /** Only one map fits the description of the groups. */
  lemma GroupsOfUnique(entries: seq<Entry>, g1: map<string, seq<string>>, g2: map<string, seq<string>>, file: Entry -> Option<string>)
    requires GroupsOf(entries, g1, file) && GroupsOf(entries, g2, file)
    ensures g1 == g2
  {
    forall k | k in g1
      ensures g1[k] == g2[k]
    {
      SortedUnique(g1[k], g2[k]);
    }
  }

  /** The same entries in another order give the same groups. */
  lemma GroupsOfPermutation(e1: seq<Entry>, e2: seq<Entry>, g1: map<string, seq<string>>, g2: map<string, seq<string>>, file: Entry -> Option<string>)
    requires multiset(e1) == multiset(e2)
    requires GroupsOf(e1, g1, file) && GroupsOf(e2, g2, file)
    ensures g1 == g2
  {
    forall k
      ensures multiset(NamesFor(e1, k, file)) == multiset(NamesFor(e2, k, file))
      ensures |NamesFor(e1, k, file)| == |NamesFor(e2, k, file)|
    {
      NamesForPermutation(e1, e2, k, file);
      assert |multiset(NamesFor(e1, k, file))| == |multiset(NamesFor(e2, k, file))|;
    }
    assert GroupsOf(e1, g2, file);
    GroupsOfUnique(e1, g1, g2, file);
  }

  /** The scan finds the same groups whatever order the folder lists its entries in. */
  lemma ScanOrderIndependent(e1: seq<Entry>, e2: seq<Entry>, g1: map<string, seq<string>>, g2: map<string, seq<string>>)
    requires multiset(e1) == multiset(e2)
    requires DuplicateGroups(e1, g1) && DuplicateGroups(e2, g2)
    ensures g1 == g2
  {
    GroupsOfPermutation(e1, e2, g1, g2, Filing);
  }
}
