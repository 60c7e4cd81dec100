/**
 * The frame list kept by the `SimMovieMaker` application object: `image_files`
 * (the playback order), `selected_indices` (what the listbox reports as selected)
 * and `current_preview_index`. The pure functions below say what each operation
 * does to that state; the class `SimMovieMaker` performs the operations the way
 * the program does (appending in a loop, deleting one index at a time) and is
 * proved to agree with them.
 */
module Frames {
  import GlobPattern

  function Min(a: int, b: int): int { if a <= b then a else b }
  function Max(a: int, b: int): int { if a <= b then b else a }

  /** No value occurs twice. */
  predicate NoDuplicates<T(==)>(s: seq<T>)
  {
    forall i, j :: 0 <= i < j < |s| ==> s[i] != s[j]
  }

  /** The values of a sequence, as a set. */
  function Elements<T>(s: seq<T>): set<T>
  {
    set x | x in s
  }

  /** A duplicate-free sequence has as many distinct values as positions. */
  lemma {:induction false} DistinctCardinality<T>(s: seq<T>)
    requires NoDuplicates(s)
    ensures |Elements(s)| == |s|
    decreases |s|
  {
    if s != [] {
      var n := |s| - 1;
      DistinctCardinality(s[..n]);
      assert Elements(s) == Elements(s[..n]) + {s[n]};
      assert s[n] !in Elements(s[..n]);
    } else {
      assert Elements(s) == {};
    }
  }

  // ---------------------------------------------------------------------------
  // De-duplicating append (import_images, import_sequence)
  // ---------------------------------------------------------------------------

  /**
   * `files` after `for p in paths: if p not in files: files.append(p)`.
   * The existing files stay in front, the result holds exactly the old files and
   * the given paths, and a duplicate-free list stays duplicate-free.
   */
  function AppendNew(files: seq<string>, paths: seq<string>): (r: seq<string>)
    ensures |files| <= |r| && r[..|files|] == files
    ensures forall x :: x in r <==> x in files || x in paths
    ensures NoDuplicates(files) ==> NoDuplicates(r)
    decreases |paths|
  {
    if paths == [] then files
    else
      var prev := AppendNew(files, paths[..|paths| - 1]);
      var p := paths[|paths| - 1];
      assert paths == paths[..|paths| - 1] + [p];
      if p in prev then prev else prev + [p]
  }

  /** Position of the first occurrence of `x` in `s`. */
  function FirstIndex<T(==)>(s: seq<T>, x: T): (r: nat)
    requires x in s
    ensures r < |s| && s[r] == x && x !in s[..r]
  {
    if s[0] == x then 0
    else
      var r := 1 + FirstIndex(s[1..], x);
      assert s[..r] == [s[0]] + s[1..][..r - 1];
      r
  }

  /** The first occurrence of a value in a prefix is its first occurrence in the whole. */
  lemma {:induction false} FirstIndexPrefix<T>(s: seq<T>, x: T, m: nat)
    requires m <= |s| && x in s[..m]
    ensures FirstIndex(s, x) == FirstIndex(s[..m], x)
    decreases m
  {
    assert s[..m][0] == s[0];
    if s[0] != x {
      assert s[..m][1..] == s[1..][..m - 1];
      FirstIndexPrefix(s[1..], x, m - 1);
    }
  }

  /**
   * The paths appended are the new ones, and they come in the order in which each
   * was first seen among the given paths; with the prefix fixed by AppendNew's own
   * contract this determines the result completely.
   */
  lemma {:induction false} AppendNewFirstSeenOrder(files: seq<string>, paths: seq<string>)
    ensures forall i :: |files| <= i < |AppendNew(files, paths)| ==>
      AppendNew(files, paths)[i] !in files && AppendNew(files, paths)[i] in paths
    ensures forall i, j :: |files| <= i < j < |AppendNew(files, paths)| ==>
      FirstIndex(paths, AppendNew(files, paths)[i]) < FirstIndex(paths, AppendNew(files, paths)[j])
    decreases |paths|
  {
    if paths != [] {
      var n := |paths| - 1;
      var init, p := paths[..n], paths[n];
      var prev := AppendNew(files, init);
      AppendNewFirstSeenOrder(files, init);
      forall i | |files| <= i < |prev|
        ensures prev[i] in init && prev[i] in paths && FirstIndex(paths, prev[i]) == FirstIndex(init, prev[i]) < n
      {
        FirstIndexPrefix(paths, prev[i], n);
      }
      if p !in prev {
        var q := FirstIndex(paths, p);
        if q < n {
          assert false;
        }
      }
    }
  }

  /** Two imports in a row add the same as one import of both path lists. */
  lemma {:induction false} AppendNewConcat(files: seq<string>, p: seq<string>, q: seq<string>)
    ensures AppendNew(AppendNew(files, p), q) == AppendNew(files, p + q)
    decreases |q|
  {
    if q == [] {
      assert p + q == p;
    } else {
      var n := |q| - 1;
      AppendNewConcat(files, p, q[..n]);
      assert (p + q)[..|p + q| - 1] == p + q[..n];
      assert (p + q)[|p + q| - 1] == q[n];
    }
  }

  // ---------------------------------------------------------------------------
  // Deleting positions (delete_selected)
  // ---------------------------------------------------------------------------

  /** One step of the import loop: the next path is appended unless already present. */
  lemma AppendNewSnoc(files: seq<string>, paths: seq<string>, p: string)
    ensures AppendNew(files, paths + [p]) ==
      if p in AppendNew(files, paths) then AppendNew(files, paths) else AppendNew(files, paths) + [p]
  {
    assert (paths + [p])[..|paths|] == paths;
  }

  /** `del s[i]`. */
  function RemoveAt<T>(s: seq<T>, i: int): (r: seq<T>)
    requires 0 <= i < |s|
    ensures |r| == |s| - 1
    ensures forall k :: 0 <= k < i ==> r[k] == s[k]
    ensures forall k :: i <= k < |r| ==> r[k] == s[k + 1]
  {
    s[..i] + s[i + 1..]
  }

  /** Reference definition: the elements of `s` whose positions are not in `ks`, in order. */
  function Exclude<T>(s: seq<T>, ks: set<int>): (r: seq<T>)
    ensures |r| <= |s|
    decreases |s|
  {
    if s == [] then []
    else Exclude(s[..|s| - 1], ks) + (if |s| - 1 in ks then [] else [s[|s| - 1]])
  }

  /** Positions below every excluded one are kept where they were. */
  lemma {:induction false} ExcludeKeepsPrefix<T>(s: seq<T>, ks: set<int>, m: nat)
    requires m <= |s|
    requires forall k :: k in ks ==> k < 0 || m <= k
    ensures m <= |Exclude(s, ks)| && Exclude(s, ks)[..m] == s[..m]
    decreases |s|
  {
    if m < |s| {
      var n := |s| - 1;
      ExcludeKeepsPrefix(s[..n], ks, m);
      assert s[..n][..m] == s[..m];
    } else if s != [] {
      var n := |s| - 1;
      ExcludeKeepsPrefix(s[..n], ks, n);
      assert Exclude(s[..n], ks) == s[..n];
      assert s[..n] + [s[n]] == s;
    }
  }

  /** With only positions beyond the end excluded, excluding the last one as well drops just it. */
  lemma ExcludeLast<T>(s: seq<T>, ks: set<int>)
    requires s != []
    requires forall k :: k in ks ==> |s| - 1 < k
    ensures Exclude(s, ks) == s
    ensures Exclude(s, ks + {|s| - 1}) == s[..|s| - 1]
  {
    var n := |s| - 1;
    ExcludeKeepsPrefix(s, ks, |s|);
    ExcludeKeepsPrefix(s[..n], ks + {n}, n);
  }

  /**
   * The step the reverse-sorted deletion loop relies on: once the positions in
   * `ks` are gone, deleting position `i`, which lies below all of them, removes
   * exactly the element originally at `i`.
   */
  lemma {:induction false} ExcludeThenRemove<T>(s: seq<T>, ks: set<int>, i: int)
    requires 0 <= i < |s|
    requires forall k :: k in ks ==> i < k
    ensures i < |Exclude(s, ks)|
    ensures RemoveAt(Exclude(s, ks), i) == Exclude(s, ks + {i})
    decreases |s|
  {
    var n := |s| - 1;
    ExcludeKeepsPrefix(s, ks, i + 1);
    if n == i {
      ExcludeLast(s, ks);
      assert RemoveAt(s, n) == s[..n];
    } else {
      var prev := Exclude(s[..n], ks);
      ExcludeThenRemove(s[..n], ks, i);
      var tail := if n in ks then [] else [s[n]];
      assert Exclude(s, ks) == prev + tail;
      assert Exclude(s, ks + {i}) == Exclude(s[..n], ks + {i}) + tail;
      assert (prev + tail)[..i] == prev[..i];
      assert (prev + tail)[i + 1..] == prev[i + 1..] + tail;
    }
  }

  /** Every survivor of an exclusion is the element of some kept position. */
  lemma {:induction false} ExcludeSources<T>(s: seq<T>, ks: set<int>)
    ensures forall t :: 0 <= t < |Exclude(s, ks)| ==>
      exists j :: 0 <= j < |s| && j !in ks && s[j] == Exclude(s, ks)[t]
    decreases |s|
  {
    if s == [] {
      assert Exclude(s, ks) == [];
    } else {
      var n := |s| - 1;
      var prev := Exclude(s[..n], ks);
      var r := Exclude(s, ks);
      ExcludeSources(s[..n], ks);
      assert r == prev + (if n in ks then [] else [s[n]]);
      forall t | 0 <= t < |r| ensures exists j :: 0 <= j < |s| && j !in ks && s[j] == r[t] {
        if t < |prev| {
          var j :| 0 <= j < |s[..n]| && j !in ks && s[..n][j] == prev[t];
          assert 0 <= j < |s| && j !in ks && s[j] == r[t];
        } else {
          assert 0 <= n < |s| && n !in ks && s[n] == r[t];
        }
      }
    }
  }

  /** The element of every kept position survives an exclusion. */
  lemma {:induction false} ExcludeKept<T>(s: seq<T>, ks: set<int>)
    ensures forall j :: 0 <= j < |s| && j !in ks ==> s[j] in Exclude(s, ks)
    decreases |s|
  {
    if s != [] {
      var n := |s| - 1;
      var prev := Exclude(s[..n], ks);
      ExcludeKept(s[..n], ks);
      assert Exclude(s, ks) == prev + (if n in ks then [] else [s[n]]);
      forall j | 0 <= j < |s| && j !in ks ensures s[j] in Exclude(s, ks) {
        if j < n {
          assert s[..n][j] == s[j];
          assert s[j] in prev;
        }
      }
    }
  }

  /** Only the excluded positions in range shorten the sequence. */
  function InRange(ks: set<int>, n: int): set<int>
  {
    set k | k in ks && 0 <= k < n
  }

  lemma {:induction false} ExcludeLength<T>(s: seq<T>, ks: set<int>)
    ensures |Exclude(s, ks)| == |s| - |InRange(ks, |s|)|
    decreases |s|
  {
    if s == [] {
      assert InRange(ks, 0) == {};
    } else {
      var n := |s| - 1;
      ExcludeLength(s[..n], ks);
      if n in ks {
        assert InRange(ks, |s|) == InRange(ks, n) + {n};
      } else {
        assert InRange(ks, |s|) == InRange(ks, n);
      }
    }
  }

  /** Deleting positions from a duplicate-free list leaves it duplicate-free. */
  lemma {:induction false} ExcludeNoDuplicates<T>(s: seq<T>, ks: set<int>)
    requires NoDuplicates(s)
    ensures NoDuplicates(Exclude(s, ks))
    decreases |s|
  {
    if s != [] {
      var n := |s| - 1;
      assert NoDuplicates(s[..n]);
      ExcludeNoDuplicates(s[..n], ks);
      ExcludeSources(s[..n], ks);
      var prev := Exclude(s[..n], ks);
      forall t | 0 <= t < |prev| ensures prev[t] != s[n] {
        var j :| 0 <= j < |s[..n]| && j !in ks && s[..n][j] == prev[t];
        assert s[j] == prev[t];
      }
    }
  }

  // ---------------------------------------------------------------------------
  // sorted(indices, reverse=True)
  // ---------------------------------------------------------------------------

  predicate NonIncreasing(s: seq<int>)
  {
    forall i, j :: 0 <= i < j < |s| ==> s[i] >= s[j]
  }

  function InsertDescending(x: int, s: seq<int>): (r: seq<int>)
    requires NonIncreasing(s)
    ensures NonIncreasing(r) && multiset(r) == multiset(s) + multiset{x}
  {
    if s == [] || x >= s[0] then [x] + s
    else
      var rest := InsertDescending(x, s[1..]);
      assert s == [s[0]] + s[1..];
      ConsNonIncreasing(s[0], rest, s[1..], x);
      [s[0]] + rest
  }

  /** A value at least as large as every value of `t` and as `x` can go in front of a permutation of `t + [x]`. */
  lemma ConsNonIncreasing(v: int, rest: seq<int>, t: seq<int>, x: int)
    requires NonIncreasing(rest) && multiset(rest) == multiset(t) + multiset{x}
    requires v >= x && forall k :: 0 <= k < |t| ==> v >= t[k]
    ensures NonIncreasing([v] + rest)
  {
    forall k | 0 <= k < |rest| ensures v >= rest[k] {
      assert rest[k] in multiset(rest);
    }
  }

  /** Inserting a value not yet present keeps the values distinct. */
  lemma {:induction false} InsertDescendingDistinct(x: int, s: seq<int>)
    requires NonIncreasing(s) && NoDuplicates(s) && x !in s
    ensures NoDuplicates(InsertDescending(x, s))
  {
    if s != [] && x < s[0] {
      var rest := InsertDescending(x, s[1..]);
      InsertDescendingDistinct(x, s[1..]);
      assert s == [s[0]] + s[1..];
      forall k | 0 <= k < |rest| ensures rest[k] != s[0] {
        assert rest[k] in multiset(s[1..]) + multiset{x};
      }
    }
  }

  /** `sorted(s, reverse=True)`: the same values, largest first. */
  function SortDescending(s: seq<int>): (r: seq<int>)
    ensures NonIncreasing(r) && multiset(r) == multiset(s)
  {
    if s == [] then []
    else
      assert s == [s[0]] + s[1..];
      InsertDescending(s[0], SortDescending(s[1..]))
  }

  /** Sorting distinct indices gives a strictly decreasing sequence. */
  lemma {:induction false} SortDescendingDistinct(s: seq<int>)
    requires NoDuplicates(s)
    ensures NoDuplicates(SortDescending(s))
  {
    if s != [] {
      assert s == [s[0]] + s[1..];
      SortDescendingDistinct(s[1..]);
      assert s[0] !in multiset(s[1..]);
      InsertDescendingDistinct(s[0], SortDescending(s[1..]));
    }
  }

  /** Two permutations of each other hold the same values. */
  lemma SameElements(a: seq<int>, b: seq<int>)
    requires multiset(a) == multiset(b)
    ensures Elements(a) == Elements(b)
  {
    forall x ensures x in a <==> x in b {
      assert x in a <==> x in multiset(a);
      assert x in b <==> x in multiset(b);
    }
  }

  /** A permutation of a valid selection names the same valid positions. */
  lemma PermutedSelection(indices: seq<int>, selection: seq<int>, n: int)
    requires multiset(indices) == multiset(selection) && ValidSelection(selection, n)
    ensures forall k :: 0 <= k < |indices| ==> 0 <= indices[k] < n
  {
    forall k | 0 <= k < |indices| ensures 0 <= indices[k] < n {
      assert indices[k] in multiset(selection);
      var m :| 0 <= m < |selection| && selection[m] == indices[k];
    }
  }

  /** What the deletion loop needs of `sorted(selection, reverse=True)`. */
  lemma DeletionOrder(selection: seq<int>, n: int)
    requires ValidSelection(selection, n)
    ensures NonIncreasing(SortDescending(selection)) && NoDuplicates(SortDescending(selection))
    ensures forall k :: 0 <= k < |SortDescending(selection)| ==> 0 <= SortDescending(selection)[k] < n
    ensures Elements(SortDescending(selection)) == Elements(selection)
  {
    SortDescendingDistinct(selection);
    SameElements(SortDescending(selection), selection);
    PermutedSelection(SortDescending(selection), selection, n);
  }

  /**
   * One turn of the deletion loop: with the first `j` of the reverse-sorted,
   * distinct indices already deleted, deleting the next one from what is left
   * excludes it as well.
   */
  lemma DeleteStep<T>(s: seq<T>, indices: seq<int>, j: int)
    requires NonIncreasing(indices) && NoDuplicates(indices)
    requires 0 <= j < |indices| && 0 <= indices[j] < |s|
    ensures indices[j] < |Exclude(s, Elements(indices[..j]))|
    ensures RemoveAt(Exclude(s, Elements(indices[..j])), indices[j]) == Exclude(s, Elements(indices[..j + 1]))
  {
    forall k | k in Elements(indices[..j]) ensures indices[j] < k {
      var m :| 0 <= m < j && indices[m] == k;
    }
    ExcludeThenRemove(s, Elements(indices[..j]), indices[j]);
    assert Elements(indices[..j + 1]) == Elements(indices[..j]) + {indices[j]};
  }

  // ---------------------------------------------------------------------------
  // The list state and its transitions
  // ---------------------------------------------------------------------------

  datatype ListState = ListState(files: seq<string>, selection: seq<int>, preview: int)

  /** Distinct positions of a list of length `n`, as the listbox reports them. */
  predicate ValidSelection(selection: seq<int>, n: int)
  {
    NoDuplicates(selection) && forall k :: 0 <= k < |selection| ==> 0 <= selection[k] < n
  }

  /**
   * The invariant every modelled operation keeps: no path twice, the selection
   * names distinct positions of the list, and the preview index is a position of
   * the list, or 0 when the list is empty.
   */
  predicate WellFormed(st: ListState)
  {
    && NoDuplicates(st.files)
    && ValidSelection(st.selection, |st.files|)
    && (if st.files == [] then st.preview == 0 else 0 <= st.preview < |st.files|)
  }

  /** delete_selected. */
  function Delete(st: ListState): ListState
  {
    if st.selection == [] then st
    else
      var files := Exclude(st.files, Elements(st.selection));
      ListState(files, [], if files == [] then 0 else Min(st.preview, |files| - 1))
  }

  /**
   * Deleting the selection removes exactly the selected positions: a file survives
   * if and only if its position was not selected, and the list shrinks by the
   * size of the selection. The selection is cleared, the preview index becomes
   * min(old, len - 1) or 0 on an empty list, and an empty selection changes nothing.
   */
  lemma DeleteEffect(st: ListState)
    requires WellFormed(st)
    ensures st.selection == [] ==> Delete(st) == st
    ensures st.selection != [] ==>
      && |Delete(st).files| == |st.files| - |st.selection|
      && (forall j :: 0 <= j < |st.files| ==> (st.files[j] in Delete(st).files <==> j !in st.selection))
      && Delete(st).selection == []
      && Delete(st).preview == (if Delete(st).files == [] then 0 else Min(st.preview, |Delete(st).files| - 1))
  {
    if st.selection != [] {
      var ks := Elements(st.selection);
      var files := Exclude(st.files, ks);
      ExcludeNoDuplicates(st.files, ks);
      ExcludeLength(st.files, ks);
      assert InRange(ks, |st.files|) == ks;
      DistinctCardinality(st.selection);
      ExcludeSources(st.files, ks);
      ExcludeKept(st.files, ks);
      forall j | 0 <= j < |st.files|
        ensures st.files[j] in files <==> j !in st.selection
      {
        if st.files[j] in files {
          var t :| 0 <= t < |files| && files[t] == st.files[j];
          var j' :| 0 <= j' < |st.files| && j' !in ks && st.files[j'] == files[t];
          assert j' == j;
        }
      }
    }
  }

  /** Deleting the selection keeps the invariant. */
  lemma DeleteKeepsWellFormed(st: ListState)
    requires WellFormed(st)
    ensures WellFormed(Delete(st))
  {
    if st.selection != [] {
      ExcludeNoDuplicates(st.files, Elements(st.selection));
    }
  }

  /** move_selected(direction): swap the single selected item with its neighbour. */
  function Move(st: ListState, direction: int): ListState
    requires WellFormed(st)
  {
    if |st.selection| != 1 then st
    else
      var idx := st.selection[0];
      var target := idx + direction;
      if target < 0 || target >= |st.files| then st
      else
        ListState(st.files[idx := st.files[target]][target := st.files[idx]],
                  [target],
                  if idx == st.preview then target else st.preview)
  }

  /** A move is possible exactly when one index is selected and its neighbour exists. */
  predicate CanMove(st: ListState, direction: int)
  {
    |st.selection| == 1 && 0 <= st.selection[0] + direction < |st.files|
  }

  /**
   * A move that cannot happen changes nothing. A move that can swaps exactly the
   * two positions, leaves every other position and the multiset of files alone,
   * selects the target, and moves the preview index along with the item if it
   * pointed at it; the invariant is kept either way.
   */
  lemma MoveEffect(st: ListState, direction: int)
    requires WellFormed(st)
    ensures WellFormed(Move(st, direction))
    ensures !CanMove(st, direction) ==> Move(st, direction) == st
    ensures CanMove(st, direction) ==>
      var idx, target, r := st.selection[0], st.selection[0] + direction, Move(st, direction);
      && |r.files| == |st.files|
      && multiset(r.files) == multiset(st.files)
      && r.files[target] == st.files[idx] && r.files[idx] == st.files[target]
      && (forall k :: 0 <= k < |st.files| && k != idx && k != target ==> r.files[k] == st.files[k])
      && r.selection == [target]
      && r.preview == (if st.preview == idx then target else st.preview)
  {
    if CanMove(st, direction) {
      SwapNoDuplicates(st.files, st.selection[0], st.selection[0] + direction);
    }
  }

  /** Swapping two positions keeps a duplicate-free list duplicate-free. */
  lemma SwapNoDuplicates(s: seq<string>, idx: int, target: int)
    requires NoDuplicates(s) && 0 <= idx < |s| && 0 <= target < |s|
    ensures NoDuplicates(s[idx := s[target]][target := s[idx]])
  {
    var files := s[idx := s[target]][target := s[idx]];
    forall i, j | 0 <= i < j < |files| ensures files[i] != files[j] {
      var i' := if i == idx then target else if i == target then idx else i;
      var j' := if j == idx then target else if j == target then idx else j;
      assert files[i] == s[i'] && files[j] == s[j'];
    }
  }

  /** Moving back in the opposite direction restores the list and the selection. */
  lemma MoveBackRestores(st: ListState, direction: int)
    requires WellFormed(st) && CanMove(st, direction)
    ensures WellFormed(Move(st, direction)) && CanMove(Move(st, direction), -direction)
    ensures Move(Move(st, direction), -direction).files == st.files
    ensures Move(Move(st, direction), -direction).selection == st.selection
    ensures st.preview != st.selection[0] + direction ==> Move(Move(st, direction), -direction).preview == st.preview
  {
    MoveEffect(st, direction);
  }

  datatype Navigation = First | Previous | Next | Last

  /** preview_first / preview_previous / preview_next / preview_last. */
  function Navigate(st: ListState, nav: Navigation): ListState
  {
    if st.files == [] then st
    else
      var n := |st.files|;
      st.(preview := match nav
        case First => 0
        case Previous => Max(0, st.preview - 1)
        case Next => Min(n - 1, st.preview + 1)
        case Last => n - 1)
  }

  /**
   * Navigation does nothing on an empty list and otherwise changes only the
   * preview index, which stays a position of the list; First and Last go to the ends.
   */
  lemma NavigateInRange(st: ListState, nav: Navigation)
    requires WellFormed(st)
    ensures WellFormed(Navigate(st, nav))
    ensures st.files == [] ==> Navigate(st, nav) == st
    ensures Navigate(st, nav).files == st.files && Navigate(st, nav).selection == st.selection
    ensures st.files != [] ==> 0 <= Navigate(st, nav).preview < |st.files|
    ensures st.files != [] && nav == First ==> Navigate(st, nav).preview == 0
    ensures st.files != [] && nav == Last ==> Navigate(st, nav).preview == |st.files| - 1
  {
  }

  /** Stepping forward and back returns to the same frame, away from the end of the list. */
  lemma NextThenPrevious(st: ListState)
    requires WellFormed(st) && st.preview < |st.files| - 1
    ensures Navigate(Navigate(st, Next), Previous) == st
  {
  }

  /** on_file_select: take the listbox selection; a single selected item becomes the preview. */
  function Select(st: ListState, selection: seq<int>): ListState
  {
    st.(selection := selection, preview := if |selection| == 1 then selection[0] else st.preview)
  }

  lemma SelectEffect(st: ListState, selection: seq<int>)
    requires WellFormed(st) && ValidSelection(selection, |st.files|)
    ensures WellFormed(Select(st, selection))
    ensures Select(st, selection).files == st.files && Select(st, selection).selection == selection
    ensures |selection| == 1 ==> Select(st, selection).preview == selection[0]
    ensures |selection| != 1 ==> Select(st, selection).preview == st.preview
  {
  }

  // ---------------------------------------------------------------------------
  // Paths of an image sequence (import_sequence)
  // ---------------------------------------------------------------------------

  /** `os.path.join(directory, name)` for one name, as POSIX joins paths. */
  function JoinPath(directory: string, name: string): (r: string)
    ensures |name| <= |r| && r[|r| - |name|..] == name
  {
    if |name| > 0 && name[0] == '/' then name
    else if directory == [] || directory[|directory| - 1] == '/' then directory + name
    else directory + "/" + name
  }

  /** The full paths of the matching names, in listing order. */
  function JoinAll(directory: string, names: seq<string>): (r: seq<string>)
    ensures |r| == |names|
    decreases |names|
  {
    if names == [] then []
    else JoinAll(directory, names[..|names| - 1]) + [JoinPath(directory, names[|names| - 1])]
  }

  lemma JoinAllSnoc(directory: string, names: seq<string>, i: int)
    requires 0 <= i < |names|
    ensures JoinAll(directory, names[..i + 1]) == JoinAll(directory, names[..i]) + [JoinPath(directory, names[i])]
  {
    assert names[..i + 1][..i] == names[..i];
  }

  /** `[f for f in listing if re.match(regex, f)]`, with the matcher as a parameter. */
  function Matching(listing: seq<string>, regex: string, isMatch: (string, string) -> bool): (r: seq<string>)
    ensures |r| <= |listing|
    ensures forall f :: f in r <==> f in listing && isMatch(regex, f)
  {
    if listing == [] then []
    else
      var rest := Matching(listing[1..], regex, isMatch);
      assert listing == [listing[0]] + listing[1..];
      (if isMatch(regex, listing[0]) then [listing[0]] else []) + rest
  }

  /**
   * The filter works name by name: the matches of a concatenation are those of
   * each part, in order. With the one-name case this fixes the result: the
   * matching names, in listing order, each as often as it is listed.
   */
  lemma {:induction false} MatchingConcat(a: seq<string>, b: seq<string>, regex: string,
                                          isMatch: (string, string) -> bool)
    ensures Matching(a + b, regex, isMatch) == Matching(a, regex, isMatch) + Matching(b, regex, isMatch)
    decreases |a|
  {
    if a == [] {
      assert a + b == b;
    } else {
      assert (a + b)[1..] == a[1..] + b;
      MatchingConcat(a[1..], b, regex, isMatch);
    }
  }

  // ---------------------------------------------------------------------------
  // The application object
  // ---------------------------------------------------------------------------

  class SimMovieMaker {
    var imageFiles: seq<string>
    var selectedIndices: seq<int>
    var currentPreviewIndex: int

    function State(): ListState
      reads this
    {
      ListState(imageFiles, selectedIndices, currentPreviewIndex)
    }

    ghost predicate Valid()
      reads this
    {
      WellFormed(State())
    }

    constructor ()
      ensures Valid() && State() == ListState([], [], 0)
    {
      imageFiles, selectedIndices, currentPreviewIndex := [], [], 0;
    }

    /**
     * import_images with the paths the file dialog returned. Each new path is
     * appended; the preview index is reset to 0 when the list afterwards has as
     * many entries as paths were chosen.
     */
    method ImportImages(filenames: seq<string>)
      requires Valid()
      modifies this
      ensures Valid()
      ensures imageFiles == AppendNew(old(imageFiles), filenames)
      ensures selectedIndices == old(selectedIndices)
      ensures currentPreviewIndex ==
        if filenames != [] && |imageFiles| == |filenames| then 0 else old(currentPreviewIndex)
    {
      if filenames == [] {
        return;
      }
      var i := 0;
      while i < |filenames|
        invariant 0 <= i <= |filenames|
        invariant imageFiles == AppendNew(old(imageFiles), filenames[..i])
        invariant selectedIndices == old(selectedIndices) && currentPreviewIndex == old(currentPreviewIndex)
      {
        assert filenames[..i + 1][..i] == filenames[..i];
        if filenames[i] !in imageFiles {
          imageFiles := imageFiles + [filenames[i]];
        }
        i := i + 1;
      }
      assert filenames[..i] == filenames;
      if imageFiles == [] {
        return;
      }
      if |imageFiles| == |filenames| {
        currentPreviewIndex := 0;
      }
    }

    /**
     * import_sequence with the chosen directory, the pattern typed by the user and
     * the sorted directory listing; `isMatch` stands for `re.match`. Matching names
     * are joined to the directory and appended as in ImportImages.
     */
    method ImportSequence(directory: string, pattern: string, listing: seq<string>,
                          isMatch: (string, string) -> bool)
      requires Valid()
      modifies this
      ensures Valid()
      ensures imageFiles ==
        if directory == "" || pattern == "" then old(imageFiles)
        else AppendNew(old(imageFiles),
                       JoinAll(directory, Matching(listing, GlobPattern.GlobToRegex(pattern), isMatch)))
      ensures selectedIndices == old(selectedIndices) && currentPreviewIndex == old(currentPreviewIndex)
    {
      if directory == "" || pattern == "" {
        return;
      }
      var regexPattern := GlobPattern.GlobToRegex(pattern);
      var matchingFiles := Matching(listing, regexPattern, isMatch);
      if matchingFiles == [] {
        return;
      }
      AppendJoined(directory, matchingFiles);
    }

    /** The loop of import_sequence: join each matching name to the directory and append it if absent. */
    method AppendJoined(directory: string, names: seq<string>)
      modifies this`imageFiles
      ensures imageFiles == AppendNew(old(imageFiles), JoinAll(directory, names))
    {
      var i := 0;
      while i < |names|
        invariant 0 <= i <= |names|
        invariant imageFiles == AppendNew(old(imageFiles), JoinAll(directory, names[..i]))
      {
        var fullPath := JoinPath(directory, names[i]);
        JoinAllSnoc(directory, names, i);
        AppendNewSnoc(old(imageFiles), JoinAll(directory, names[..i]), fullPath);
        if fullPath !in imageFiles {
          imageFiles := imageFiles + [fullPath];
        }
        i := i + 1;
      }
      assert names[..i] == names;
    }

    /** select_all: the listbox then reports every position as selected. */
    method SelectAll()
      requires Valid()
      modifies this
      ensures Valid()
      ensures imageFiles == old(imageFiles) && currentPreviewIndex == old(currentPreviewIndex)
      ensures |selectedIndices| == |imageFiles| && forall k :: 0 <= k < |imageFiles| ==> selectedIndices[k] == k
    {
      selectedIndices := seq(|imageFiles|, k => k);
    }

    /** deselect_all. */
    method DeselectAll()
      requires Valid()
      modifies this
      ensures Valid() && State() == old(State()).(selection := [])
    {
      selectedIndices := [];
    }

    /**
     * delete_selected: the selected indices are sorted largest first and deleted
     * one at a time, so that no deletion shifts a position still to be deleted.
     */
    method DeleteSelected()
      requires Valid()
      modifies this
      ensures Valid() && State() == Delete(old(State()))
    {
      if selectedIndices == [] {
        return;
      }
      DeleteKeepsWellFormed(State());
      var indices := SortDescending(selectedIndices);
      DeletionOrder(selectedIndices, |imageFiles|);
      DeleteInOrder(indices);
      selectedIndices := [];
      if imageFiles != [] {
        currentPreviewIndex := Min(currentPreviewIndex, |imageFiles| - 1);
      } else {
        currentPreviewIndex := 0;
      }
    }

    /** The loop `for idx in indices: del self.image_files[idx]` of delete_selected. */
    method DeleteInOrder(indices: seq<int>)
      requires NonIncreasing(indices) && NoDuplicates(indices)
      requires forall k :: 0 <= k < |indices| ==> 0 <= indices[k] < |imageFiles|
      modifies this`imageFiles
      ensures imageFiles == Exclude(old(imageFiles), Elements(indices))
    {
      ghost var original := imageFiles;
      ExcludeKeepsPrefix(original, {}, |original|);
      assert Elements(indices[..0]) == {};
      var j := 0;
      while j < |indices|
        invariant 0 <= j <= |indices|
        invariant imageFiles == Exclude(original, Elements(indices[..j]))
      {
        var idx := indices[j];
        DeleteStep(original, indices, j);
        imageFiles := imageFiles[..idx] + imageFiles[idx + 1..];
        j := j + 1;
      }
      assert indices[..j] == indices;
    }

    /** move_selected(direction), with direction -1 (up) or +1 (down). */
    method MoveSelected(direction: int)
      requires Valid()
      modifies this
      ensures Valid() && State() == Move(old(State()), direction)
    {
      MoveEffect(State(), direction);
      if |selectedIndices| != 1 {
        return;
      }
      var idx := selectedIndices[0];
      var targetIdx := idx + direction;
      if targetIdx < 0 || targetIdx >= |imageFiles| {
        return;
      }
      imageFiles := imageFiles[idx := imageFiles[targetIdx]][targetIdx := imageFiles[idx]];
      selectedIndices := [targetIdx];
      if idx == currentPreviewIndex {
        currentPreviewIndex := targetIdx;
      }
    }

    method PreviewFirst()
      requires Valid()
      modifies this
      ensures Valid() && State() == Navigate(old(State()), First)
    {
      if imageFiles == [] {
        return;
      }
      currentPreviewIndex := 0;
    }

    method PreviewPrevious()
      requires Valid()
      modifies this
      ensures Valid() && State() == Navigate(old(State()), Previous)
    {
      if imageFiles == [] {
        return;
      }
      currentPreviewIndex := Max(0, currentPreviewIndex - 1);
    }

    method PreviewNext()
      requires Valid()
      modifies this
      ensures Valid() && State() == Navigate(old(State()), Next)
    {
      if imageFiles == [] {
        return;
      }
      currentPreviewIndex := Min(|imageFiles| - 1, currentPreviewIndex + 1);
    }

    method PreviewLast()
      requires Valid()
      modifies this
      ensures Valid() && State() == Navigate(old(State()), Last)
    {
      if imageFiles == [] {
        return;
      }
      currentPreviewIndex := |imageFiles| - 1;
    }

    /** on_file_select with the positions the listbox reports as selected. */
    method OnFileSelect(selection: seq<int>)
      requires Valid() && ValidSelection(selection, |imageFiles|)
      modifies this
      ensures Valid() && State() == Select(old(State()), selection)
    {
      selectedIndices := selection;
      if |selectedIndices| == 1 {
        currentPreviewIndex := selectedIndices[0];
      }
    }
  }
}
