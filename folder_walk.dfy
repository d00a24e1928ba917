/** The folder-hierarchy walk of the folder/IAM tool: `getFolders` and the level
    loop of get mode, over an abstract folder-listing call. */
module FolderWalk {
  import opened Calls

  /** The folder-listing call: for a parent resource name, the pages of child
      folder names that the paged listing delivers, in delivery order, or an error. */
  type Lister = string -> Reply<seq<seq<string>>>

  /** The names on a run of pages, page after page, each page in its own order. */
  function Flatten(pages: seq<seq<string>>): seq<string>
  {
    if pages == [] then [] else Flatten(pages[..|pages| - 1]) + pages[|pages| - 1]
  }

  /** Joins two outcomes: the first failure if there is one, otherwise both
      lists one after the other. */
  function Then(a: Result<seq<string>>, b: Result<seq<string>>): Result<seq<string>>
  {
    match a
    case Fatal(at) => Fatal(at)
    case Success(x) =>
      match b
      case Fatal(at) => Fatal(at)
      case Success(y) => Success(x + y)
  }

  /** What `getFolders` computes: the children of every parent in `parents`, in
      parent order, or the first parent whose listing fails. */
  function ChildrenOf(list: Lister, parents: seq<string>): Result<seq<string>>
  {
    if parents == [] then Success([])
    else
      var last := parents[|parents| - 1];
      Then(ChildrenOf(list, parents[..|parents| - 1]),
           match list(last)
           case Error => Fatal(last)
           case Ok(pages) => Success(Flatten(pages)))
  }

  /** `getFolders`: lists the children of each parent in turn and appends every
      name of every page to one list. A failing listing aborts. */
  method GetFolders(list: Lister, parents: seq<string>) returns (r: Result<seq<string>>)
    ensures r == ChildrenOf(list, parents)
    ensures parents == [] ==> r == Success([])
  {
    var retArray: seq<string> := [];
    var i := 0;
    while i < |parents|
      invariant 0 <= i <= |parents|
      invariant ChildrenOf(list, parents[..i]) == Success(retArray)
    {
      var folderItem := parents[i];
      assert parents[..i + 1][..i] == parents[..i];
      match list(folderItem) {
        case Error =>
          assert ChildrenOf(list, parents[..i + 1]) == Fatal(folderItem);
          ChildrenOfAppend(list, parents[..i + 1], parents[i + 1..]);
          assert parents[..i + 1] + parents[i + 1..] == parents;
          return Fatal(folderItem);
        case Ok(pages) =>
          ghost var before := retArray;
          var j := 0;
          while j < |pages|
            invariant 0 <= j <= |pages|
            invariant retArray == before + Flatten(pages[..j])
          {
            var page := pages[j];
            var k := 0;
            while k < |page|
              invariant 0 <= k <= |page|
              invariant retArray == before + Flatten(pages[..j]) + page[..k]
            {
              retArray := retArray + [page[k]];
              assert page[..k + 1] == page[..k] + [page[k]];
              k := k + 1;
            }
            assert page[..k] == page;
            assert pages[..j + 1][..j] == pages[..j];
            j := j + 1;
          }
          assert pages[..j] == pages;
      }
      i := i + 1;
    }
    assert parents[..i] == parents;
    r := Success(retArray);
  }

  /** Listing a concatenation of parent lists is listing each part in turn. */
  lemma {:induction false} ChildrenOfAppend(list: Lister, a: seq<string>, b: seq<string>)
    ensures ChildrenOf(list, a + b) == Then(ChildrenOf(list, a), ChildrenOf(list, b))
  {
    if b == [] {
      assert a + b == a;
      match ChildrenOf(list, a)
      case Fatal(_) =>
      case Success(x) => assert x + [] == x;
    } else {
      var b' := b[..|b| - 1];
      assert (a + b)[..|a + b| - 1] == a + b';
      assert (a + b)[|a + b| - 1] == b[|b| - 1];
      ChildrenOfAppend(list, a, b');
      match ChildrenOf(list, a)
      case Fatal(_) =>
      case Success(x) =>
        match ChildrenOf(list, b')
        case Fatal(_) =>
        case Success(y) =>
          match list(b[|b| - 1])
          case Error =>
          case Ok(pages) => assert x + y + Flatten(pages) == x + (y + Flatten(pages));
    }
  }

  /** A name is on a run of pages exactly when it is on one of them. */
  lemma {:induction false} FlattenMembership(pages: seq<seq<string>>, x: string)
    ensures x in Flatten(pages) <==> exists j :: 0 <= j < |pages| && x in pages[j]
  {
    if pages != [] {
      var front := pages[..|pages| - 1];
      FlattenMembership(front, x);
      assert forall j :: 0 <= j < |front| ==> front[j] == pages[j];
    }
  }

  /** Listing the children succeeds exactly when every parent's listing does. */
  lemma {:induction false} ChildrenOfSucceeds(list: Lister, parents: seq<string>)
    ensures ChildrenOf(list, parents).Success? <==> forall i :: 0 <= i < |parents| ==> list(parents[i]).Ok?
  {
    if parents != [] {
      var front := parents[..|parents| - 1];
      ChildrenOfSucceeds(list, front);
      assert forall i :: 0 <= i < |front| ==> front[i] == parents[i];
    }
  }

  /** When the listing of the children succeeds, a name is among them exactly
      when some parent's listing delivers it on one of its pages. */
  lemma {:induction false} ChildrenOfMembership(list: Lister, parents: seq<string>, x: string)
    requires ChildrenOf(list, parents).Success?
    ensures x in ChildrenOf(list, parents).value <==>
            exists i, j :: 0 <= i < |parents| && list(parents[i]).Ok? && 0 <= j < |list(parents[i]).value| &&
                           x in list(parents[i]).value[j]
  {
    ChildrenOfSucceeds(list, parents);
    if parents != [] {
      var front := parents[..|parents| - 1];
      var last := parents[|parents| - 1];
      ChildrenOfMembership(list, front, x);
      assert forall i :: 0 <= i < |front| ==> front[i] == parents[i];
      FlattenMembership(list(last).value, x);
    }
  }

  /** A failing listing of the children names the first parent, in parent order,
      whose own listing fails. */
  lemma {:induction false} FatalIsFirst(list: Lister, parents: seq<string>)
    requires ChildrenOf(list, parents).Fatal?
    ensures exists i :: 0 <= i < |parents| && parents[i] == ChildrenOf(list, parents).at &&
                        list(parents[i]).Error? && forall j :: 0 <= j < i ==> list(parents[j]).Ok?
  {
    var front := parents[..|parents| - 1];
    var at := ChildrenOf(list, parents).at;
    assert forall i :: 0 <= i < |front| ==> front[i] == parents[i];
    if ChildrenOf(list, front).Fatal? {
      FatalIsFirst(list, front);
      var i :| 0 <= i < |front| && front[i] == ChildrenOf(list, front).at &&
               list(front[i]).Error? && forall j :: 0 <= j < i ==> list(front[j]).Ok?;
      assert parents[i] == at;
    } else {
      ChildrenOfSucceeds(list, front);
      var i := |parents| - 1;
      assert parents[i] == at && list(parents[i]).Error?;
      assert forall j :: 0 <= j < i ==> list(parents[j]).Ok?;
    }
  }

  /** Level `k` of the hierarchy under `org`: level 0 is the organization itself,
      and each further level lists the children of the one above it. */
  function Level(list: Lister, org: string, k: nat): Result<seq<string>>
  {
    if k == 0 then Success([org])
    else
      match Level(list, org, k - 1)
      case Fatal(at) => Fatal(at)
      case Success(above) => ChildrenOf(list, above)
  }

  /** Levels 1 through `k` in discovery order, or the first failure among them. */
  function Discovered(list: Lister, org: string, k: nat): Result<seq<string>>
  {
    if k == 0 then Success([]) else Then(Discovered(list, org, k - 1), Level(list, org, k))
  }

  /** The walk ends at level `k`: that level is empty or its listing fails. */
  predicate Ends(list: Lister, org: string, k: nat)
  {
    Level(list, org, k).Fatal? || Level(list, org, k) == Success([])
  }

  /** Level `n` is the first level below the organization at which the walk ends. */
  predicate FirstEnd(list: Lister, org: string, n: nat)
  {
    1 <= n && Ends(list, org, n) && forall j :: 1 <= j < n ==> !Ends(list, org, j)
  }

  /** The outcome of the walk. */
  datatype Walk =
    | NoFolders                    // the organization has no folders: report it and stop
    | Found(folders: seq<string>)  // every folder found, level after level
    | WalkFatal(at: string)        // the listing of this parent failed

  /** The outcome of a walk that ends at level `n`. */
  function WalkAt(list: Lister, org: string, n: nat): Walk
  {
    match Level(list, org, n)
    case Fatal(at) => WalkFatal(at)
    case Success(_) =>
      if n <= 1 then NoFolders
      else
        match Discovered(list, org, n - 1)
        case Fatal(at) => WalkFatal(at)
        case Success(all) => Found(all)
  }

  /** The get-mode walk: list the organization's top level, report an empty
      organization, and otherwise list level after level, accumulating every level
      until a round lists no folder. The ghost `depth` is a level at which the
      hierarchy is known to end; the source has no guard against cycles, and on a
      hierarchy without such a level it does not stop. */
  method WalkHierarchy(list: Lister, org: string, ghost depth: nat) returns (w: Walk, ghost n: nat)
    requires Ends(list, org, depth)
    ensures FirstEnd(list, org, n) && w == WalkAt(list, org, n)
    ensures w == NoFolders <==> Level(list, org, 1) == Success([])
  {
    var initArray := [org];
    assert Level(list, org, 1) == ChildrenOf(list, initArray);
    var first := GetFolders(list, initArray);
    n := 1;
    if first.Fatal? {
      return WalkFatal(first.at), n;
    }
    var foldersArray := first.value;
    if |foldersArray| == 0 {
      return NoFolders, n;
    }
    var temp := foldersArray;
    assert Discovered(list, org, 1) == Success(foldersArray) by {
      assert [] + foldersArray == foldersArray;
    }
    while true
      invariant 1 <= n < depth
      invariant Level(list, org, n) == Success(temp) && temp != []
      invariant Discovered(list, org, n) == Success(foldersArray)
      invariant forall j :: 1 <= j <= n ==> !Ends(list, org, j)
      decreases depth - n
    {
      var temp2 := GetFolders(list, temp);
      n := n + 1;
      if temp2.Fatal? {
        return WalkFatal(temp2.at), n;
      }
      if |temp2.value| == 0 {
        return Found(foldersArray), n;
      }
      foldersArray := foldersArray + temp2.value;
      temp := temp2.value;
    }
  }

  /** The first level at which the walk ends is unique, so the outcome of the
      walk is determined by the listing alone. */
  lemma FirstEndUnique(list: Lister, org: string, n: nat, m: nat)
    requires FirstEnd(list, org, n) && FirstEnd(list, org, m)
    ensures n == m
  {
  }

  /** Once a level is empty, or its listing fails, every later level is too. */
  lemma {:induction false} EndsStays(list: Lister, org: string, k: nat, l: nat)
    requires k <= l && Ends(list, org, k)
    ensures Ends(list, org, l) && (Level(list, org, k).Fatal? ==> Level(list, org, l) == Level(list, org, k))
  {
    if k < l {
      EndsStays(list, org, k, l - 1);
    }
  }

  /** The accumulated list never shrinks: each round only appends to it. */
  lemma {:induction false} DiscoveredGrows(list: Lister, org: string, k: nat)
    requires Discovered(list, org, k + 1).Success?
    ensures Discovered(list, org, k).Success? && Level(list, org, k + 1).Success?
    ensures Discovered(list, org, k + 1).value ==
            Discovered(list, org, k).value + Level(list, org, k + 1).value
  {
  }

  /** A name is in the accumulated list exactly when some level from 1 to `k`
      holds it. */
  lemma {:induction false} DiscoveredMembership(list: Lister, org: string, k: nat, x: string)
    requires Discovered(list, org, k).Success?
    ensures forall j :: 1 <= j <= k ==> Level(list, org, j).Success?
    ensures x in Discovered(list, org, k).value <==>
            exists j :: 1 <= j <= k && x in Level(list, org, j).value
  {
    if k > 0 {
      var k' := k - 1;
      DiscoveredMembership(list, org, k', x);
      var before, level := Discovered(list, org, k').value, Level(list, org, k).value;
      assert Discovered(list, org, k).value == before + level;
      forall j | 1 <= j <= k
        ensures Level(list, org, j).Success?
      {
        if j < k {
          assert 1 <= j <= k';
        }
      }
      assert x in before + level ==> exists j :: 1 <= j <= k && x in Level(list, org, j).value by {
        if x in before {
          var j :| 1 <= j <= k' && x in Level(list, org, j).value;
          assert 1 <= j <= k && x in Level(list, org, j).value;
        } else if x in level {
          assert 1 <= k <= k && x in Level(list, org, k).value;
        }
      }
      assert (exists j :: 1 <= j <= k && x in Level(list, org, j).value) ==> x in before + level by {
        if exists j :: 1 <= j <= k && x in Level(list, org, j).value {
          var j :| 1 <= j <= k && x in Level(list, org, j).value;
          if j < k {
            assert 1 <= j <= k' && x in Level(list, org, j).value;
            assert exists i :: 1 <= i <= k' && x in Level(list, org, i).value;
            assert x in Discovered(list, org, k').value;
          } else {
            assert x in level;
          }
        }
      }
    }
  }

  /** A walk that finds folders reports the levels above the first empty one,
      none of them empty, and the level below them is empty. */
  lemma FoundLevels(list: Lister, org: string, n: nat)
    requires FirstEnd(list, org, n) && WalkAt(list, org, n).Found?
    ensures n >= 2 && Level(list, org, n) == Success([])
    ensures Discovered(list, org, n - 1) == Success(WalkAt(list, org, n).folders)
    ensures forall j :: 1 <= j < n ==> Level(list, org, j).Success? && Level(list, org, j).value != []
    ensures WalkAt(list, org, n).folders != []
  {
    forall j | 1 <= j < n
      ensures Level(list, org, j).Success? && Level(list, org, j).value != []
    {
      assert !Ends(list, org, j);
    }
    var l1 := Level(list, org, 1).value;
    DiscoveredMembership(list, org, n - 1, l1[0]);
  }
}
