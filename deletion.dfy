/**
 * The keep/delete split (`deleteSelectedFiles`, up to the confirmation):
 * every member of every duplicate group except the one kept is listed for
 * deletion. The kept file of a group is whichever radio button is checked;
 * here it is a map from group key to the name kept. Also the default
 * choice of kept file and the names of the images that go with a ROM.
 */
module Deletion {
  import opened JsText
  import opened BaseName
  import opened StringOrder
  import opened Grouper

  /** The outcome of building the delete list. */
  datatype DeletePlan =
    | FoldersMissing    // the ROM or the image folder was not chosen
    | SelectionMissing  // some group has no checked radio button: `.value` of null throws
    | NothingToDelete   // the list came out empty
    | Delete(files: seq<string>)

  /** The members of one group other than the kept one, in order. */
  function Rejected(files: seq<string>, kept: string): (r: seq<string>)
    ensures |r| <= |files|
  {
    if files == [] then []
    else
      var init := Rejected(files[..|files| - 1], kept);
      var last := files[|files| - 1];
      if last != kept then init + [last] else init
  }

  /** Every group of `order` has a kept file. */
  ghost predicate AllSelected(order: seq<string>, selection: map<string, string>) {
    forall k :: k in order ==> k in selection
  }

  /** The delete list: the rejected members of each group, group by group in `order`. */
  function DeleteList(order: seq<string>, groups: map<string, seq<string>>, selection: map<string, string>): seq<string>
    requires forall k :: k in order ==> k in groups && k in selection
  {
    if order == [] then []
    else
      var k := order[|order| - 1];
      DeleteList(order[..|order| - 1], groups, selection) + Rejected(groups[k], selection[k])
  }

  /**
   * Builds `filesToDelete`. `order` is the order in which `for..in` visits
   * the keys of `duplicateGroups`: each key once. The first key without a
   * checked button stops the whole operation.
   */
  method PlanDeletion(foldersChosen: bool, order: seq<string>, groups: map<string, seq<string>>, selection: map<string, string>)
    returns (plan: DeletePlan)
    requires forall k :: k in order <==> k in groups
    ensures !foldersChosen <==> plan == FoldersMissing
    ensures plan == SelectionMissing <==> foldersChosen && !AllSelected(order, selection)
    ensures plan == NothingToDelete <==> foldersChosen && AllSelected(order, selection) && DeleteList(order, groups, selection) == []
    ensures plan.Delete? ==> AllSelected(order, selection) && plan.files == DeleteList(order, groups, selection) && plan.files != []
  {
    if !foldersChosen {
      return FoldersMissing;
    }
    var filesToDelete: seq<string> := [];
    for i := 0 to |order|
      invariant AllSelected(order[..i], selection)
      invariant filesToDelete == DeleteList(order[..i], groups, selection)
    {
      var baseName := order[i];
      if baseName !in selection {
        return SelectionMissing;
      }
      var selectedFile := selection[baseName];
      var files := groups[baseName];
      for j := 0 to |files|
        invariant filesToDelete == DeleteList(order[..i], groups, selection) + Rejected(files[..j], selectedFile)
      {
        assert files[..j + 1][..j] == files[..j];
        if files[j] != selectedFile {
          filesToDelete := filesToDelete + [files[j]];
        }
      }
      assert files[..|files|] == files;
      assert order[..i + 1][..i] == order[..i];
    }
    assert order[..|order|] == order;
    if |filesToDelete| == 0 {
      return NothingToDelete;
    }
    return Delete(filesToDelete);
  }

  // ---------------------------------------------------------------------
  // What the delete list holds

  /** A group member is rejected exactly when it is not the kept file. */
  lemma {:induction false} RejectedMembers(files: seq<string>, kept: string, f: string)
    ensures f in Rejected(files, kept) <==> f in files && f != kept
    decreases |files|
  {
    if files != [] {
      var init := files[..|files| - 1];
      RejectedMembers(init, kept, f);
      assert files == init + [files[|files| - 1]];
    }
  }

  /** With distinct names and the kept file among them, exactly one member is kept. */
  lemma {:induction false} RejectedLength(files: seq<string>, kept: string)
    requires kept in files
    requires forall x, y :: 0 <= x < y < |files| ==> files[x] != files[y]
    ensures |Rejected(files, kept)| == |files| - 1
    decreases |files|
  {
    var init := files[..|files| - 1];
    if files[|files| - 1] == kept {
      RejectedAllBut(init, kept);
    } else {
      assert kept in init by {
        var i :| 0 <= i < |files| && files[i] == kept;
        assert init[i] == kept;
      }
      RejectedLength(init, kept);
    }
  }

  /** Nothing is dropped from a list that does not hold the kept file. */
  lemma {:induction false} RejectedAllBut(files: seq<string>, kept: string)
    requires kept !in files
    ensures Rejected(files, kept) == files
    decreases |files|
  {
    if files != [] {
      var init := files[..|files| - 1];
      RejectedAllBut(init, kept);
      assert files == init + [files[|files| - 1]];
    }
  }

  /** A file is listed exactly when it is a member, other than the kept one, of one of the groups. */
  lemma {:induction false} DeleteListMembers(order: seq<string>, groups: map<string, seq<string>>, selection: map<string, string>, f: string)
    requires forall k :: k in order ==> k in groups && k in selection
    ensures f in DeleteList(order, groups, selection)
        <==> exists k :: k in order && f in groups[k] && f != selection[k]
    decreases |order|
  {
    if order != [] {
      var init := order[..|order| - 1];
      var last := order[|order| - 1];
      DeleteListMembers(init, groups, selection, f);
      RejectedMembers(groups[last], selection[last], f);
      if exists k :: k in order && f in groups[k] && f != selection[k] {
        var k :| k in order && f in groups[k] && f != selection[k];
        if k != last {
          assert k in init by {
            var i :| 0 <= i < |order| && order[i] == k;
            assert init[i] == k;
          }
        }
      }
      if exists k :: k in init && f in groups[k] && f != selection[k] {
        var k :| k in init && f in groups[k] && f != selection[k];
        assert k in order by {
          var i :| 0 <= i < |init| && init[i] == k;
          assert order[i] == k;
        }
      }
    }
  }

  /** No name is in two groups. */
  ghost predicate Disjoint(groups: map<string, seq<string>>) {
    forall k1, k2, f :: k1 in groups && k2 in groups && f in groups[k1] && f in groups[k2] ==> k1 == k2
  }

  /** When no name is in two groups, no kept file is ever listed for deletion. */
  lemma KeptNeverDeleted(order: seq<string>, groups: map<string, seq<string>>, selection: map<string, string>, k: string)
    requires forall k :: k in order ==> k in groups && k in selection
    requires Disjoint(groups) && k in order && selection[k] in groups[k]
    ensures selection[k] !in DeleteList(order, groups, selection)
  {
    DeleteListMembers(order, groups, selection, selection[k]);
  }

  /** The groups of the scan share no name, so the lemma above applies to them. */
  lemma ScannedGroupsAreDisjoint(entries: seq<Entry>, groups: map<string, seq<string>>)
    requires DuplicateGroups(entries, groups)
    ensures Disjoint(groups)
  {
    forall k1, k2, f | k1 in groups && k2 in groups && f in groups[k1] && f in groups[k2]
      ensures k1 == k2
    {
      GroupsDisjoint(entries, groups, k1, k2, f);
    }
  }

  /**
   * If some group keeps one of its own members and has another member, the
   * list is not empty: "nothing to delete" only comes from selections that
   * keep every member.
   */
  lemma DeleteListNotEmpty(order: seq<string>, groups: map<string, seq<string>>, selection: map<string, string>, k: string, f: string)
    requires forall k :: k in order ==> k in groups && k in selection
    requires k in order && f in groups[k] && f != selection[k]
    ensures DeleteList(order, groups, selection) != []
  {
    DeleteListMembers(order, groups, selection, f);
  }

  // ---------------------------------------------------------------------
  // The default choice

  /** The radio button checked when the groups are shown: the first file of each group. */
  function DefaultSelection(groups: map<string, seq<string>>): (sel: map<string, string>)
    requires forall k :: k in groups ==> groups[k] != []
    ensures sel.Keys == groups.Keys
    ensures forall k :: k in sel ==> sel[k] in groups[k]
  {
    map k | k in groups :: groups[k][0]
  }

  /** In a sorted group, the default kept file comes no later than any other member. */
  lemma DefaultKeepsFirstInOrder(groups: map<string, seq<string>>, k: string, f: string)
    requires forall k :: k in groups ==> groups[k] != []
    requires k in groups && Sorted(groups[k]) && f in groups[k]
    ensures LessEq(DefaultSelection(groups)[k], f)
  {
    var i :| 0 <= i < |groups[k]| && groups[k][i] == f;
    if i == 0 {
      LessEqReflexive(f);
    }
  }

  lemma ScannedGroupsHaveTwo(entries: seq<Entry>, groups: map<string, seq<string>>)
    requires DuplicateGroups(entries, groups)
    ensures forall k :: k in groups ==> |groups[k]| > 1
  {
    forall k | k in groups
      ensures |groups[k]| > 1
    {
      assert |multiset(groups[k])| == |multiset(NamesFor(entries, k, Filing))|;
    }
  }

  lemma TailMembers(s: seq<string>, f: string)
    requires s != [] && forall x, y :: 0 <= x < y < |s| ==> s[x] != s[y]
    ensures (f in s && f != s[0]) <==> f in s[1..]
  {
    if f in s[1..] {
      var i :| 0 <= i < |s[1..]| && s[1..][i] == f;
      assert s[i + 1] == f;
    }
    assert s == [s[0]] + s[1..];
  }

  /**
   * With the default choice on the scan's groups of a folder that holds each
   * name once, the delete list holds every member of every group but the
   * first.
   */
  lemma DefaultDeletesAllButFirst(entries: seq<Entry>, order: seq<string>, groups: map<string, seq<string>>, f: string)
    requires DuplicateGroups(entries, groups) && DistinctNames(entries)
    requires forall k :: k in order <==> k in groups
    ensures forall k :: k in groups ==> groups[k] != []
    ensures f in DeleteList(order, groups, DefaultSelection(groups))
        <==> exists k :: k in groups && f in groups[k][1..]
  {
    ScannedGroupsHaveTwo(entries, groups);
    DeleteListMembers(order, groups, DefaultSelection(groups), f);
    forall k | k in groups
      ensures (f in groups[k] && f != groups[k][0]) <==> f in groups[k][1..]
    {
      GroupNamesDistinct(entries, groups, k);
      TailMembers(groups[k], f);
    }
  }

  // ---------------------------------------------------------------------
  // Image names

  const ImageExtensions: seq<string> := [".png", ".jpg", ".jpeg", ".gif", ".bmp"]

  /**
   * `file.substring(0, file.lastIndexOf('.'))`: the name up to its last '.';
   * with no '.' the index is -1, which `substring` reads as 0, so the stem is
   * empty.
   */
  function ImageStem(file: string): (r: string)
    ensures |r| <= |file| && r == file[..|r|]
    ensures '.' !in file ==> r == []
    ensures '.' in file ==> |r| < |file| && file[|r|] == '.' && '.' !in file[|r| + 1..]
  {
    var dot := LastIndexOf(file, '.');
    if dot < 0 then [] else file[..dot]
  }

  /**
   * The image names tried for a ROM, one per image extension, in order: the
   * extension-less name plus the image extension where the name has a '.'
   * after its first character, else the bare image extension.
   */
  function ImageNames(file: string): (r: seq<string>)
    ensures |r| == |ImageExtensions|
    ensures LastIndexOf(file, '.') > 0 ==>
              forall i :: 0 <= i < |r| ==> r[i] == StripExtension(file) + ImageExtensions[i]
    ensures LastIndexOf(file, '.') <= 0 ==> r == ImageExtensions
  {
    var stem := ImageStem(file);
    assert LastIndexOf(file, '.') > 0 ==> stem == StripExtension(file);
    assert LastIndexOf(file, '.') <= 0 ==> forall i :: 0 <= i < |ImageExtensions| ==> stem + ImageExtensions[i] == ImageExtensions[i];
    seq(|ImageExtensions|, i requires 0 <= i < |ImageExtensions| => stem + ImageExtensions[i])
  }

  /** Where the ROM name has a '.' after its first character, the image stem is the extension-less name. */
  lemma ImageStemIsStrippedName(file: string)
    requires LastIndexOf(file, '.') > 0
    ensures ImageStem(file) == StripExtension(file)
  {
  }

  /** A ROM name without a '.' looks for images named only by an extension. */
  lemma UndottedNameHasBareImageNames(file: string)
    requires '.' !in file
    ensures ImageNames(file) == ImageExtensions
  {
    assert ImageStem(file) == [];
    forall i | 0 <= i < |ImageExtensions|
      ensures ImageNames(file)[i] == ImageExtensions[i]
    {
      assert [] + ImageExtensions[i] == ImageExtensions[i];
    }
  }
}
