// The sidebar file list (src/sidebar_file_list.rs): `update` rebuilds a GTK
// TreeStore from a list of paths, one row per distinct path prefix, below a
// root row "/". While it runs it keeps a local index (the FileTree of the
// source: for every row, its children by name) so that a name already
// present under the current row is reused instead of inserted again.

module Sidebar {
  import opened Wrappers
  import opened Paths

  /** One row of the TreeStore: its three columns (the name shown, and the
      "visible" and "active" flags of the Show toggle) and the row it hangs
      below, None for a top-level row. */
  datatype Row = Row(name: string, visible: bool, active: bool, parent: Option<nat>)

  const RootRow: Row := Row("/", false, false, None)

  /** The GTK TreeStore with the three columns the sidebar declares. A row's
      iter is its index in rows; tops and kids give the display order of the
      top-level rows and of each row's children. */
  class TreeStore {
    var rows: seq<Row>
    var tops: seq<nat>
    var kids: seq<seq<nat>>

    ghost predicate Valid()
      reads this
    {
      StoreShape(rows, tops, kids)
    }

    constructor ()
      ensures Valid() && rows == [] && tops == [] && kids == []
    {
      rows, tops, kids := [], [], [];
    }

    /** `TreeStore::clear`. */
    method Clear()
      modifies this
      ensures Valid() && rows == [] && tops == [] && kids == []
    {
      rows, tops, kids := [], [], [];
    }

    /** `TreeStore::insert_with_values(parent, Some(0), values)`: a new row
        placed first among the children of parent (first among the
        top-level rows for None); the result is its iter. */
    method InsertWithValues(parent: Option<nat>, name: string, visible: bool, active: bool) returns (iter: nat)
      requires Valid() && (parent.Some? ==> parent.value < |rows|)
      modifies this
      ensures Valid()
      ensures iter == old(|rows|) && rows == old(rows) + [Row(name, visible, active, parent)]
      ensures parent.None? ==> tops == [iter] + old(tops) && kids == old(kids) + [[]]
      ensures parent.Some? ==>
                tops == old(tops) && kids == old(kids)[parent.value := [iter] + old(kids)[parent.value]] + [[]]
    {
      iter := |rows|;
      var row := Row(name, visible, active, parent);
      match parent
      case None =>
        InsertTopKeepsShape(rows, tops, kids, row);
        rows, tops, kids := rows + [row], [iter] + tops, kids + [[]];
      case Some(p) =>
        InsertChildKeepsShape(rows, tops, kids, row);
        rows, kids := rows + [row], kids[p := [iter] + kids[p]] + [[]];
    }
  }

  /** The links of a store agree: every row's parent comes before it, the
      top-level rows are exactly those without a parent, and each row's
      children are exactly the rows naming it as their parent. */
  ghost predicate StoreShape(rows: seq<Row>, tops: seq<nat>, kids: seq<seq<nat>>)
  {
    && |kids| == |rows|
    && (forall n :: 0 <= n < |rows| && rows[n].parent.Some? ==> rows[n].parent.value < n)
    && (forall n :: n in tops ==> n < |rows| && rows[n].parent.None?)
    && (forall n :: 0 <= n < |rows| && rows[n].parent.None? ==> n in tops)
    && (forall p, n {:trigger n in kids[p]} :: 0 <= p < |rows| && n in kids[p] ==> n < |rows| && rows[n].parent == Some(p))
    && (forall n :: 0 <= n < |rows| && rows[n].parent.Some? ==> n in kids[rows[n].parent.value])
  }

  lemma InsertTopKeepsShape(rows: seq<Row>, tops: seq<nat>, kids: seq<seq<nat>>, row: Row)
    requires StoreShape(rows, tops, kids) && row.parent.None?
    ensures StoreShape(rows + [row], [|rows|] + tops, kids + [[]])
  {
    var iter := |rows|;
    var rows', kids' := rows + [row], kids + [[]];
    assert kids'[iter] == [];
    forall p', n | 0 <= p' < |rows'| && n in kids'[p']
      ensures n < |rows'| && rows'[n].parent == Some(p')
    {
      if p' != iter {
        assert kids'[p'] == kids[p'] && rows'[n] == rows[n];
      }
    }
    forall n | 0 <= n < |rows'| && rows'[n].parent.Some?
      ensures n in kids'[rows'[n].parent.value]
    {
      assert n < iter && rows'[n] == rows[n] && kids'[rows[n].parent.value] == kids[rows[n].parent.value];
    }
  }

  lemma InsertChildKeepsShape(rows: seq<Row>, tops: seq<nat>, kids: seq<seq<nat>>, row: Row)
    requires StoreShape(rows, tops, kids) && row.parent.Some? && row.parent.value < |rows|
    ensures
      var p := row.parent.value;
      StoreShape(rows + [row], tops, kids[p := [|rows|] + kids[p]] + [[]])
  {
    var iter, p := |rows|, row.parent.value;
    var rows', kids' := rows + [row], kids[p := [iter] + kids[p]] + [[]];
    assert kids'[iter] == [];
    forall p', n | 0 <= p' < |rows'| && n in kids'[p']
      ensures n < |rows'| && rows'[n].parent == Some(p')
    {
      if p' != iter {
        if p' != p {
          assert kids'[p'] == kids[p'] && rows'[n] == rows[n];
        } else if n != iter {
          assert n in kids[p] && rows'[n] == rows[n];
        }
      }
    }
    forall n | 0 <= n < |rows'| && rows'[n].parent.Some?
      ensures n in kids'[rows'[n].parent.value]
    {
      if n < iter {
        var q := rows[n].parent.value;
        assert rows'[n] == rows[n] && n in kids[q];
        assert q == p ==> kids'[q] == [iter] + kids[q];
        assert q != p ==> kids'[q] == kids[q];
      }
    }
  }

  // ---------------------------------------------------------------------
  // Paths as the sidebar sees them: sequences of components.

  /** The names of the Normal components of cs, in order. */
  function Names(cs: seq<Component>): seq<string>
  {
    if cs == [] then []
    else Names(cs[..|cs| - 1]) + (match cs[|cs| - 1] case Normal(name) => [name] case _ => [])
  }

  /** Every component is one update accepts; any other kind panics. */
  predicate Supported(cs: seq<Component>)
  {
    forall k :: 0 <= k < |cs| ==> cs[k].RootDir? || cs[k].Normal?
  }

  /** The k-th Normal component of cs is the final component of cs: the
      value both flags of the row it creates receive. */
  predicate IsFinal(cs: seq<Component>, k: nat)
  {
    cs != [] && cs[|cs| - 1].Normal? && k == |Names(cs)|
  }

  /** The names on the way from a top-level row down to row n. */
  function PathOf(rows: seq<Row>, n: nat): seq<string>
    decreases n
  {
    if n >= |rows| then []
    else
      match rows[n].parent
      case None => []
      case Some(p) => if p < n then PathOf(rows, p) + [rows[n].name] else []
  }

  /** Some row is reached from the top by exactly these names. */
  ghost predicate Present(rows: seq<Row>, names: seq<string>)
  {
    exists n :: 0 <= n < |rows| && PathOf(rows, n) == names
  }

  /** paths[q] is the first of the paths whose names start with names. */
  ghost predicate FirstWith(paths: seq<seq<Component>>, q: int, names: seq<string>)
  {
    && 0 <= q < |paths|
    && IsPrefix(names, Names(paths[q]))
    && forall q' :: 0 <= q' < q ==> !IsPrefix(names, Names(paths[q']))
  }

  predicate Decreasing(s: seq<nat>)
  {
    forall a, b :: 0 <= a < b < |s| ==> s[a] > s[b]
  }

  predicate Ascending(s: seq<nat>)
  {
    forall a, b :: 0 <= a < b < |s| ==> s[a] <= s[b]
  }

  // ---------------------------------------------------------------------
  // What the store shows after update.

  /** A single top-level row "/" with both flags off, and every other row
      below a row inserted before it. */
  ghost predicate RootOnly(rows: seq<Row>, tops: seq<nat>)
  {
    && |rows| >= 1 && rows[0] == RootRow && tops == [0]
    && forall n :: 1 <= n < |rows| ==> rows[n].parent.Some? && rows[n].parent.value < n
  }

  /** The Normal names of every path, and so each of their prefixes, name a
      chain of rows from the root. */
  ghost predicate Covers(rows: seq<Row>, paths: seq<seq<Component>>)
  {
    forall q, k :: 0 <= q < |paths| && 0 <= k <= |Names(paths[q])| ==> Present(rows, Names(paths[q])[..k])
  }

  /** Every row below the root is a prefix of the names of some path. */
  ghost predicate OnlyInputs(rows: seq<Row>, paths: seq<seq<Component>>)
  {
    forall n :: 1 <= n < |rows| ==> FromInput(paths, PathOf(rows, n))
  }

  /** Some path is the first to start with names. */
  ghost predicate FromInput(paths: seq<seq<Component>>, names: seq<string>)
  {
    exists q :: FirstWith(paths, q, names)
  }

  /** No two rows are reached by the same names. */
  ghost predicate UniquePaths(rows: seq<Row>)
  {
    forall a, b :: 0 <= a < |rows| && 0 <= b < |rows| && PathOf(rows, a) == PathOf(rows, b) ==> a == b
  }

  /** The flags of a row were fixed by the first path that reached it: on
      when its name was the final component of that path. */
  ghost predicate FlagsAtCreation(rows: seq<Row>, paths: seq<seq<Component>>)
  {
    forall n, q :: 1 <= n < |rows| && FirstWith(paths, q, PathOf(rows, n)) ==>
      rows[n].visible == IsFinal(paths[q], |PathOf(rows, n)|) && rows[n].active == rows[n].visible
  }

  /** No row has two children with the same name. */
  ghost predicate DistinctSiblings(rows: seq<Row>)
  {
    forall a, b :: 0 <= a < |rows| && 0 <= b < |rows| && a != b && rows[a].parent.Some? && rows[a].parent == rows[b].parent
      ==> rows[a].name != rows[b].name
  }

  /** Children are shown newest first: each was inserted at position 0. */
  ghost predicate NewestFirst(kids: seq<seq<nat>>)
  {
    forall p :: 0 <= p < |kids| ==> Decreasing(kids[p])
  }

  /** Rows are inserted in the order of the paths that first reach them: a
      row inserted later was first reached by the same or a later path. */
  ghost predicate InputOrder(rows: seq<Row>, paths: seq<seq<Component>>)
  {
    forall a, b, qa, qb ::
      1 <= a < b < |rows| && FirstWith(paths, qa, PathOf(rows, a)) && FirstWith(paths, qb, PathOf(rows, b))
      ==> qa <= qb
  }

  /** Everything update promises about the store it rebuilt from paths. */
  ghost predicate Shows(rows: seq<Row>, tops: seq<nat>, kids: seq<seq<nat>>, paths: seq<seq<Component>>)
  {
    && RootOnly(rows, tops)
    && Covers(rows, paths)
    && OnlyInputs(rows, paths)
    && UniquePaths(rows)
    && DistinctSiblings(rows)
    && FlagsAtCreation(rows, paths)
    && NewestFirst(kids)
    && InputOrder(rows, paths)
  }

  // ---------------------------------------------------------------------
  // The state update keeps while it runs.

  /** The rows built so far and the FileTree index over them: children maps
      a row and a name to the child of that row with that name. */
  ghost predicate TrieIndex(rows: seq<Row>, children: map<(nat, string), nat>)
  {
    && |rows| >= 1 && rows[0] == RootRow
    && (forall n :: 1 <= n < |rows| ==> rows[n].parent.Some? && rows[n].parent.value < n)
    && (forall k :: k in children ==>
          1 <= children[k] < |rows| && rows[children[k]].parent == Some(k.0) && rows[children[k]].name == k.1)
    && (forall n :: 1 <= n < |rows| ==> (rows[n].parent.value, rows[n].name) in children)
    && UniquePaths(rows)
  }

  /** creator[n] is the index of the path that inserted row n; the rows of
      earlier paths come first. */
  ghost predicate Created(rows: seq<Row>, creator: seq<nat>, paths: seq<seq<Component>>)
  {
    && |creator| == |rows|
    && Ascending(creator)
    && forall n :: 1 <= n < |rows| ==>
         && FirstWith(paths, creator[n], PathOf(rows, n))
         && rows[n].visible == IsFinal(paths[creator[n]], |PathOf(rows, n)|)
         && rows[n].active == rows[n].visible
  }

  /** The store and the index after the first i paths: the root alone at
      the top, the index exact, every row's creator recorded, children newest
      first, and the names of each of those paths reaching a row. */
  ghost predicate Built(
    rows: seq<Row>, tops: seq<nat>, kids: seq<seq<nat>>,
    children: map<(nat, string), nat>, creator: seq<nat>, paths: seq<seq<Component>>, i: nat)
  {
    && i <= |paths| && tops == [0]
    && TrieIndex(rows, children)
    && Created(rows, creator, paths)
    && creator[|creator| - 1] <= i
    && NewestFirst(kids)
    && forall q :: 0 <= q < i ==> Present(rows, Names(paths[q]))
  }

  // ---------------------------------------------------------------------
  // Lemmas about names and rows.

  lemma {:induction false} NamesStep(cs: seq<Component>, j: nat)
    requires j < |cs|
    ensures Names(cs[..j + 1]) == Names(cs[..j]) + (match cs[j] case Normal(name) => [name] case _ => [])
  {
    assert cs[..j + 1][..j] == cs[..j];
  }

  /** The names of a prefix of a path are a prefix of its names. */
  lemma {:induction false} NamesOfPrefix(cs: seq<Component>, j: nat)
    requires j <= |cs|
    ensures IsPrefix(Names(cs[..j]), Names(cs))
    decreases |cs|
  {
    if j == |cs| {
      assert cs[..j] == cs;
    } else {
      var init := cs[..|cs| - 1];
      NamesOfPrefix(init, j);
      assert init[..j] == cs[..j];
      PrefixTransitive(Names(cs[..j]), Names(init), Names(cs));
    }
  }

  /** A supported prefix stays supported while the next component is. */
  lemma SupportedStep(cs: seq<Component>, j: nat)
    requires j < |cs| && Supported(cs[..j])
    ensures Supported(cs[..j + 1]) <==> cs[j].RootDir? || cs[j].Normal?
    ensures !(cs[j].RootDir? || cs[j].Normal?) ==> !Supported(cs)
  {
    assert cs[..j + 1][j] == cs[j];
    assert forall k :: 0 <= k < j ==> cs[..j + 1][k] == cs[..j][k];
  }

  /** The Normal component at j is the final component exactly when it is
      the last Normal one of a path that ends in a Normal component. */
  lemma {:induction false} FinalComponent(cs: seq<Component>, j: nat)
    requires j < |cs| && cs[j].Normal?
    ensures (j == |cs| - 1) == IsFinal(cs, |Names(cs[..j + 1])|)
  {
    if j == |cs| - 1 {
      assert cs[..j + 1] == cs;
    } else if cs[|cs| - 1].Normal? {
      var init := cs[..|cs| - 1];
      NamesOfPrefix(init, j + 1);
      assert init[..j + 1] == cs[..j + 1];
      assert |Names(cs)| == |Names(init)| + 1;
    }
  }

  /** Appending a row does not change the names of the rows before it. */
  lemma {:induction false} PathOfAppend(rows: seq<Row>, r: Row, n: nat)
    requires n < |rows|
    ensures PathOf(rows + [r], n) == PathOf(rows, n)
    decreases n
  {
    assert (rows + [r])[n] == rows[n];
    match rows[n].parent
    case None =>
    case Some(p) =>
      if p < n {
        PathOfAppend(rows, r, p);
      }
  }

  lemma PathOfAppendAll(rows: seq<Row>, r: Row)
    ensures forall n :: 0 <= n < |rows| ==> PathOf(rows + [r], n) == PathOf(rows, n)
  {
    forall n | 0 <= n < |rows| ensures PathOf(rows + [r], n) == PathOf(rows, n) {
      PathOfAppend(rows, r, n);
    }
  }

  /** If a row is reached by some names, a row is reached by each of their
      prefixes: its ancestors. */
  lemma {:induction false} PresentPrefix(rows: seq<Row>, names: seq<string>, k: nat)
    requires forall n :: 0 <= n < |rows| && rows[n].parent.Some? ==> rows[n].parent.value < n
    requires |rows| >= 1 && rows[0].parent.None?
    requires Present(rows, names) && k <= |names|
    ensures Present(rows, names[..k])
    decreases |names|
  {
    if k == |names| {
      assert names[..k] == names;
    } else {
      var n :| 0 <= n < |rows| && PathOf(rows, n) == names;
      var p := rows[n].parent.value;
      assert PathOf(rows, n) == PathOf(rows, p) + [rows[n].name];
      var up := names[..|names| - 1];
      assert PathOf(rows, p) == up;
      PresentPrefix(rows, up, k);
      assert up[..k] == names[..k];
    }
  }

  /** A name missing from the index under prev is reached by no row. */
  lemma {:induction false} NotIndexedNotPresent(rows: seq<Row>, children: map<(nat, string), nat>, prev: nat, name: string)
    requires TrieIndex(rows, children) && prev < |rows| && (prev, name) !in children
    ensures !Present(rows, PathOf(rows, prev) + [name])
  {
    forall b | 0 <= b < |rows| ensures PathOf(rows, b) != PathOf(rows, prev) + [name] {
      if b != 0 {
        var p, x := rows[b].parent.value, rows[b].name;
        var up := PathOf(rows, p);
        assert PathOf(rows, b) == up + [x];
        if up == PathOf(rows, prev) {
          assert p == prev && (prev, x) in children;
          assert (up + [x])[|up|] == x != name;
        } else {
          var s := PathOf(rows, prev) + [name];
          assert (up + [x])[..|up|] == up && s[..|s| - 1] == PathOf(rows, prev);
        }
      }
    }
  }

  /** Inserting a row for a name missing below prev keeps the index exact
      and the names reaching the rows distinct. */
  lemma {:induction false} InsertKeepsIndex(rows: seq<Row>, children: map<(nat, string), nat>, prev: nat, r: Row)
    requires TrieIndex(rows, children) && prev < |rows|
    requires r.parent == Some(prev) && (prev, r.name) !in children
    ensures TrieIndex(rows + [r], children[(prev, r.name) := |rows|])
    ensures PathOf(rows + [r], |rows|) == PathOf(rows, prev) + [r.name]
  {
    var rows' := rows + [r];
    var names := PathOf(rows, prev) + [r.name];
    PathOfAppendAll(rows, r);
    assert PathOf(rows', |rows|) == names;
    NotIndexedNotPresent(rows, children, prev, r.name);
    forall a, b | 0 <= a < |rows'| && 0 <= b < |rows'| && PathOf(rows', a) == PathOf(rows', b)
      ensures a == b
    {
      if a < |rows| && b < |rows| {
        assert PathOf(rows, a) == PathOf(rows, b);
      }
    }
  }

  /** The path paths[i], at its Normal component j, creates the row for its
      names so far: no earlier path had those names as a prefix. */
  lemma {:induction false} NewRowFirstWith(
    rows: seq<Row>, children: map<(nat, string), nat>,
    paths: seq<seq<Component>>, i: nat, j: nat, prev: nat, name: string)
    requires TrieIndex(rows, children)
    requires i < |paths| && j < |paths[i]| && paths[i][j] == Normal(name)
    requires forall q :: 0 <= q < i ==> Present(rows, Names(paths[q]))
    requires prev < |rows| && PathOf(rows, prev) == Names(paths[i][..j])
    requires (prev, name) !in children
    ensures PathOf(rows, prev) + [name] == Names(paths[i][..j + 1])
    ensures FirstWith(paths, i, Names(paths[i][..j + 1]))
  {
    var path := paths[i];
    var names := PathOf(rows, prev) + [name];
    NamesStep(path, j);
    NamesOfPrefix(path, j + 1);
    NotIndexedNotPresent(rows, children, prev, name);
    forall q | 0 <= q < i ensures !IsPrefix(names, Names(paths[q])) {
      if IsPrefix(names, Names(paths[q])) {
        PresentPrefix(rows, Names(paths[q]), |names|);
        assert false;
      }
    }
  }

  /** Inserting, as the path paths[i] does at its component j, the child
      name below prev keeps the index, the creators and the coverage of the
      earlier paths, and the new row is reached by the names so far. */
  lemma {:induction false} InsertStep(
    rows: seq<Row>, children: map<(nat, string), nat>, creator: seq<nat>,
    paths: seq<seq<Component>>, i: nat, j: nat, prev: nat, name: string)
    requires TrieIndex(rows, children) && Created(rows, creator, paths)
    requires creator[|creator| - 1] <= i
    requires i < |paths| && j < |paths[i]| && paths[i][j] == Normal(name)
    requires forall q :: 0 <= q < i ==> Present(rows, Names(paths[q]))
    requires prev < |rows| && PathOf(rows, prev) == Names(paths[i][..j])
    requires (prev, name) !in children
    ensures
      var last := j == |paths[i]| - 1;
      var rows' := rows + [Row(name, last, last, Some(prev))];
      && TrieIndex(rows', children[(prev, name) := |rows|])
      && Created(rows', creator + [i], paths)
      && (forall q :: 0 <= q < i ==> Present(rows', Names(paths[q])))
      && PathOf(rows', |rows|) == Names(paths[i][..j + 1])
  {
    var path := paths[i];
    var last := j == |path| - 1;
    var r := Row(name, last, last, Some(prev));
    var rows' := rows + [r];
    InsertKeepsIndex(rows, children, prev, r);
    NewRowFirstWith(rows, children, paths, i, j, prev, name);
    FinalComponent(path, j);
    PathOfAppendAll(rows, r);
    assert Created(rows', creator + [i], paths) by {
      AppendKeepsAscending(creator, i);
      forall n | 1 <= n < |rows'|
        ensures FirstWith(paths, (creator + [i])[n], PathOf(rows', n))
        ensures rows'[n].visible == IsFinal(paths[(creator + [i])[n]], |PathOf(rows', n)|)
        ensures rows'[n].active == rows'[n].visible
      {
        if n < |rows| {
          assert PathOf(rows', n) == PathOf(rows, n) && rows'[n] == rows[n] && (creator + [i])[n] == creator[n];
        }
      }
    }
    forall q | 0 <= q < i ensures Present(rows', Names(paths[q])) {
      var n :| 0 <= n < |rows| && PathOf(rows, n) == Names(paths[q]);
      assert PathOf(rows', n) == Names(paths[q]);
    }
  }

  /** The same step, stated on the whole of what update keeps: the store
      after the insertion and the index and creators extended with the new
      row are still built from the first i paths. */
  lemma InsertBuilt(
    rows: seq<Row>, tops: seq<nat>, kids: seq<seq<nat>>,
    children: map<(nat, string), nat>, creator: seq<nat>,
    paths: seq<seq<Component>>, i: nat, j: nat, prev: nat, name: string)
    requires Built(rows, tops, kids, children, creator, paths, i) && |kids| == |rows|
    requires i < |paths| && j < |paths[i]| && paths[i][j] == Normal(name)
    requires prev < |rows| && PathOf(rows, prev) == Names(paths[i][..j])
    requires (prev, name) !in children && forall n :: n in kids[prev] ==> n < |rows|
    ensures
      var last := j == |paths[i]| - 1;
      var rows' := rows + [Row(name, last, last, Some(prev))];
      && Built(rows', tops, kids[prev := [|rows|] + kids[prev]] + [[]],
               children[(prev, name) := |rows|], creator + [i], paths, i)
      && PathOf(rows', prev) == PathOf(rows, prev)
      && PathOf(rows', |rows|) == Names(paths[i][..j + 1])
  {
    InsertStep(rows, children, creator, paths, i, j, prev, name);
    var last := j == |paths[i]| - 1;
    PathOfAppend(rows, Row(name, last, last, Some(prev)), prev);
    PrependKeepsDecreasing(kids[prev], |rows|);
    var kids' := kids[prev := [|rows|] + kids[prev]] + [[]];
    forall p | 0 <= p < |kids'| ensures Decreasing(kids'[p]) {
      if p < |kids| && p != prev {
        assert kids'[p] == kids[p];
      }
    }
  }

  /** The child indexed under prev by name is reached by one more name. */
  lemma ChildOf(rows: seq<Row>, children: map<(nat, string), nat>, prev: nat, name: string)
    requires TrieIndex(rows, children) && (prev, name) in children
    ensures children[(prev, name)] < |rows|
    ensures PathOf(rows, children[(prev, name)]) == PathOf(rows, prev) + [name]
  {
  }

  lemma AppendKeepsAscending(s: seq<nat>, x: nat)
    requires Ascending(s) && s != [] && s[|s| - 1] <= x
    ensures Ascending(s + [x])
  {
    forall a, b | 0 <= a < b < |s| + 1 ensures (s + [x])[a] <= (s + [x])[b] {
      assert (s + [x])[a] == s[a];
      if b < |s| {
        assert (s + [x])[b] == s[b];
      }
    }
  }

  lemma PrependKeepsDecreasing(s: seq<nat>, x: nat)
    requires Decreasing(s) && forall n :: n in s ==> n < x
    ensures Decreasing([x] + s)
  {
    forall a, b | 0 <= a < b < |s| + 1 ensures ([x] + s)[a] > ([x] + s)[b] {
      if a == 0 {
        assert s[b - 1] in s;
      }
    }
  }

  /** Once the names of paths[i] reach a row, the first i + 1 paths are built. */
  lemma BuiltNext(
    rows: seq<Row>, tops: seq<nat>, kids: seq<seq<nat>>,
    children: map<(nat, string), nat>, creator: seq<nat>, paths: seq<seq<Component>>, i: nat, prev: nat)
    requires Built(rows, tops, kids, children, creator, paths, i) && i < |paths|
    requires prev < |rows| && PathOf(rows, prev) == Names(paths[i])
    ensures Built(rows, tops, kids, children, creator, paths, i + 1)
  {
  }

  /** The store holding the root row alone, with an empty index, is built
      from none of the paths. */
  lemma RootBuilt(rows: seq<Row>, tops: seq<nat>, kids: seq<seq<nat>>, paths: seq<seq<Component>>)
    requires rows == [RootRow] && tops == [0] && kids == [[]]
    ensures Built(rows, tops, kids, map[], [0], paths, 0)
  {
    assert PathOf(rows, 0) == [];
  }

  /** Once every path has been walked, the store shows what update promises. */
  lemma BuiltShows(
    rows: seq<Row>, tops: seq<nat>, kids: seq<seq<nat>>,
    children: map<(nat, string), nat>, creator: seq<nat>, paths: seq<seq<Component>>)
    requires Built(rows, tops, kids, children, creator, paths, |paths|)
    ensures Shows(rows, tops, kids, paths)
  {
    BuiltCovers(rows, children, paths);
    CreatedOnlyInputs(rows, creator, paths);
    UniqueDistinctSiblings(rows);
    CreatedFlags(rows, creator, paths);
    CreatedInputOrder(rows, creator, paths);
  }

  lemma BuiltCovers(rows: seq<Row>, children: map<(nat, string), nat>, paths: seq<seq<Component>>)
    requires TrieIndex(rows, children)
    requires forall q :: 0 <= q < |paths| ==> Present(rows, Names(paths[q]))
    ensures Covers(rows, paths)
  {
    forall q, k | 0 <= q < |paths| && 0 <= k <= |Names(paths[q])|
      ensures Present(rows, Names(paths[q])[..k])
    {
      PresentPrefix(rows, Names(paths[q]), k);
    }
  }

  lemma CreatedOnlyInputs(rows: seq<Row>, creator: seq<nat>, paths: seq<seq<Component>>)
    requires Created(rows, creator, paths)
    ensures OnlyInputs(rows, paths)
  {
    forall n | 1 <= n < |rows| ensures FromInput(paths, PathOf(rows, n)) {
      assert FirstWith(paths, creator[n], PathOf(rows, n));
    }
  }

  /** Rows reached by distinct names have distinct names among siblings. */
  lemma UniqueDistinctSiblings(rows: seq<Row>)
    requires |rows| >= 1 && rows[0] == RootRow
    requires forall n :: 1 <= n < |rows| ==> rows[n].parent.Some? && rows[n].parent.value < n
    requires UniquePaths(rows)
    ensures DistinctSiblings(rows)
  {
    forall a, b | 0 <= a < |rows| && 0 <= b < |rows| && a != b && rows[a].parent.Some? && rows[a].parent == rows[b].parent
      ensures rows[a].name != rows[b].name
    {
      var p := rows[a].parent.value;
      assert PathOf(rows, a) == PathOf(rows, p) + [rows[a].name];
      assert PathOf(rows, b) == PathOf(rows, p) + [rows[b].name];
    }
  }

  lemma CreatedFlags(rows: seq<Row>, creator: seq<nat>, paths: seq<seq<Component>>)
    requires Created(rows, creator, paths)
    ensures FlagsAtCreation(rows, paths)
  {
    forall n, q | 1 <= n < |rows| && FirstWith(paths, q, PathOf(rows, n))
      ensures rows[n].visible == IsFinal(paths[q], |PathOf(rows, n)|) && rows[n].active == rows[n].visible
    {
      FirstWithUnique(paths, q, creator[n], PathOf(rows, n));
    }
  }

  lemma CreatedInputOrder(rows: seq<Row>, creator: seq<nat>, paths: seq<seq<Component>>)
    requires Created(rows, creator, paths)
    ensures InputOrder(rows, paths)
  {
    forall a, b, qa, qb |
      1 <= a < b < |rows| && FirstWith(paths, qa, PathOf(rows, a)) && FirstWith(paths, qb, PathOf(rows, b))
      ensures qa <= qb
    {
      FirstWithUnique(paths, qa, creator[a], PathOf(rows, a));
      FirstWithUnique(paths, qb, creator[b], PathOf(rows, b));
    }
  }

  /** At most one path is the first to start with given names. */
  lemma FirstWithUnique(paths: seq<seq<Component>>, q: int, q': int, names: seq<string>)
    requires FirstWith(paths, q, names) && FirstWith(paths, q', names)
    ensures q == q'
  {
  }

  // ---------------------------------------------------------------------
  // Consequences of what update promises.

  // The two lemmas below say together that the rows below the root are,
  // by the names that reach them, exactly the non-empty prefixes of the
  // Normal names of the paths.

  /** Every row below the root is reached by a non-empty prefix of the
      names of some path. */
  lemma RowsArePrefixes(rows: seq<Row>, paths: seq<seq<Component>>, n: nat)
    requires forall m :: 1 <= m < |rows| ==> rows[m].parent.Some? && rows[m].parent.value < m
    requires OnlyInputs(rows, paths) && 1 <= n < |rows|
    ensures PathOf(rows, n) != [] && exists q :: 0 <= q < |paths| && IsPrefix(PathOf(rows, n), Names(paths[q]))
  {
    var q :| FirstWith(paths, q, PathOf(rows, n));
  }

  /** Every non-empty prefix of the names of a path reaches a row below the root. */
  lemma PrefixesAreRows(rows: seq<Row>, paths: seq<seq<Component>>, q: nat, names: seq<string>)
    requires |rows| >= 1 && rows[0] == RootRow
    requires Covers(rows, paths)
    requires q < |paths| && IsPrefix(names, Names(paths[q])) && names != []
    ensures exists n :: 1 <= n < |rows| && PathOf(rows, n) == names
  {
    assert Present(rows, Names(paths[q])[..|names|]);
    var n :| 0 <= n < |rows| && PathOf(rows, n) == names;
    assert n != 0;
  }

  /** After update, a sequence of names reaches a row below the root exactly
      when it is a non-empty prefix of the names of one of the paths. */
  lemma RowsAreExactlyPrefixes(
    rows: seq<Row>, tops: seq<nat>, paths: seq<seq<Component>>, names: seq<string>)
    requires RootOnly(rows, tops) && Covers(rows, paths) && OnlyInputs(rows, paths)
    ensures (exists n :: 1 <= n < |rows| && PathOf(rows, n) == names)
        <==> names != [] && exists q :: 0 <= q < |paths| && IsPrefix(names, Names(paths[q]))
  {
    if n :| 1 <= n < |rows| && PathOf(rows, n) == names {
      RowsArePrefixes(rows, paths, n);
    }
    if q :| 0 <= q < |paths| && IsPrefix(names, Names(paths[q])) {
      if names != [] {
        PrefixesAreRows(rows, paths, q, names);
      }
    }
  }

  /** Siblings are shown in reverse order of the paths that first reach
      them: of two children of one row, the one shown first was first
      reached by a strictly later path. For the paths /a and /b, the row b
      is shown above the row a. */
  lemma SiblingsByLatestPath(
    rows: seq<Row>, tops: seq<nat>, kids: seq<seq<nat>>, paths: seq<seq<Component>>,
    p: nat, x: nat, y: nat, qx: int, qy: int)
    requires StoreShape(rows, tops, kids) && Shows(rows, tops, kids, paths)
    requires p < |rows| && x < y < |kids[p]|
    requires FirstWith(paths, qx, PathOf(rows, kids[p][x])) && FirstWith(paths, qy, PathOf(rows, kids[p][y]))
    ensures qy < qx
  {
    var a, b := kids[p][y], kids[p][x];
    assert a in kids[p] && b in kids[p];
    assert rows[0].parent.None?;
    OlderSiblingEarlierPath(rows, paths, p, a, b, qy, qx);
  }

  /** Of two children of p, the one inserted first was first reached by a
      strictly earlier path. */
  lemma OlderSiblingEarlierPath(rows: seq<Row>, paths: seq<seq<Component>>, p: nat, a: nat, b: nat, qa: int, qb: int)
    requires 1 <= a < b < |rows| && p < a
    requires rows[a].parent == Some(p) && rows[b].parent == Some(p)
    requires UniquePaths(rows) && InputOrder(rows, paths)
    requires FirstWith(paths, qa, PathOf(rows, a)) && FirstWith(paths, qb, PathOf(rows, b))
    ensures qa < qb
  {
    assert PathOf(rows, a) == PathOf(rows, p) + [rows[a].name];
    assert PathOf(rows, b) == PathOf(rows, p) + [rows[b].name];
    var k := |PathOf(rows, a)|;
    assert Names(paths[qa])[..k] == PathOf(rows, a) != PathOf(rows, b) == Names(paths[qb])[..k];
  }

  // ---------------------------------------------------------------------

  /** The sidebar's file tree: a TreeStore shown by a tree view. */
  class SidebarFileList {
    const store: TreeStore

    constructor ()
      ensures fresh(store) && store.Valid() && store.rows == []
    {
      store := new TreeStore();
    }

    /** `SidebarFileList::update`: clears the store and inserts one row per
        distinct prefix of the Normal names of the paths, below a root "/".
        ok is false when a component other than RootDir or Normal is met,
        where the source panics; the store then holds what was built so far. */
    method Update(paths: seq<seq<Component>>) returns (ok: bool)
      modifies store
      ensures store.Valid()
      ensures ok <==> forall q :: 0 <= q < |paths| ==> Supported(paths[q])
      ensures ok ==> Shows(store.rows, store.tops, store.kids, paths)
    {
      store.Clear();
      var root := store.InsertWithValues(None, "/", false, false);
      var children: map<(nat, string), nat> := map[];
      ghost var creator: seq<nat> := [0];
      RootBuilt(store.rows, store.tops, store.kids, paths);

      var i := 0;
      while i < |paths|
        invariant 0 <= i <= |paths|
        invariant store.Valid() && Built(store.rows, store.tops, store.kids, children, creator, paths, i)
        invariant forall q :: 0 <= q < i ==> Supported(paths[q])
      {
        ok, children, creator := InsertPath(paths, i, children, creator);
        if !ok {
          return;
        }
        i := i + 1;
      }
      ok := true;
      BuiltShows(store.rows, store.tops, store.kids, children, creator, paths);
    }

    /** One turn of update's loop over the paths: walks the components of
        paths[i] down from the root row, inserting each Normal name missing
        below the current row. ok is false at the first component that is
        neither RootDir nor Normal. */
    method InsertPath(paths: seq<seq<Component>>, i: nat, children: map<(nat, string), nat>, ghost creator: seq<nat>)
      returns (ok: bool, children': map<(nat, string), nat>, ghost creator': seq<nat>)
      requires i < |paths|
      requires store.Valid() && Built(store.rows, store.tops, store.kids, children, creator, paths, i)
      modifies store
      ensures store.Valid()
      ensures ok <==> Supported(paths[i])
      ensures ok ==> Built(store.rows, store.tops, store.kids, children', creator', paths, i + 1)
      ensures ok ==> Built(store.rows, store.tops, store.kids, children', creator', paths, i)
      ensures IsPrefix(old(store.rows), store.rows)
    {
      children', creator' := children, creator;
      ghost var rows0 := store.rows;
      var path := paths[i];
      var prev: nat := 0;
      var count := |path|;
      var j := 0;
      while j < count
        invariant 0 <= j <= count
        invariant store.Valid() && Built(store.rows, store.tops, store.kids, children', creator', paths, i)
        invariant prev < |store.rows| && PathOf(store.rows, prev) == Names(path[..j])
        invariant Supported(path[..j])
        invariant IsPrefix(rows0, store.rows)
      {
        ghost var before := store.rows;
        ok, prev, children', creator' := Step(paths, i, j, prev, children', creator');
        PrefixTransitive(rows0, before, store.rows);
        if !ok {
          return;
        }
        j := j + 1;
      }
      assert path[..j] == path;
      BuiltNext(store.rows, store.tops, store.kids, children', creator', paths, i, prev);
      ok := true;
    }

    /** The component j of paths[i], met at the row prev: RootDir is
        skipped, a Normal name moves prev down to its child of that name,
        and any other component stops the walk with ok false. */
    method Step(
      paths: seq<seq<Component>>, i: nat, j: nat, prev: nat,
      children: map<(nat, string), nat>, ghost creator: seq<nat>)
      returns (ok: bool, next: nat, children': map<(nat, string), nat>, ghost creator': seq<nat>)
      requires i < |paths| && j < |paths[i]| && Supported(paths[i][..j])
      requires store.Valid() && Built(store.rows, store.tops, store.kids, children, creator, paths, i)
      requires prev < |store.rows| && PathOf(store.rows, prev) == Names(paths[i][..j])
      modifies store
      ensures store.Valid()
      ensures ok <==> Supported(paths[i][..j + 1])
      ensures !ok ==> !Supported(paths[i])
      ensures ok ==> Built(store.rows, store.tops, store.kids, children', creator', paths, i)
      ensures ok ==> next < |store.rows| && PathOf(store.rows, next) == Names(paths[i][..j + 1])
      ensures IsPrefix(old(store.rows), store.rows)
      ensures !ok || paths[i][j].RootDir? ==> next == prev && children' == children && unchanged(store)
      ensures paths[i][j].Normal? && (prev, paths[i][j].name) in children ==>
                unchanged(store) && children' == children && next == children[(prev, paths[i][j].name)]
      ensures paths[i][j].Normal? && (prev, paths[i][j].name) !in children ==>
                && next == old(|store.rows|)
                && store.rows == old(store.rows) + [Row(paths[i][j].name, j == |paths[i]| - 1, j == |paths[i]| - 1, Some(prev))]
                && children' == children[(prev, paths[i][j].name) := next]
    {
      SupportedStep(paths[i], j);
      ok, next, children', creator' := true, prev, children, creator;
      match paths[i][j] {
        case RootDir =>
          NamesStep(paths[i], j);
        case Normal(name) =>
          next, children', creator' := Descend(paths, i, j, prev, name, children, creator);
        case CurDir =>
          ok := false;
        case ParentDir =>
          ok := false;
        case Prefix(_) =>
          ok := false;
      }
    }

    /** The Normal component j of paths[i], named name, below the row prev:
        the child of prev with that name, inserted first among the children
        of prev when the index has none, with both flags set when the
        component is the last of the path. */
    method Descend(
      paths: seq<seq<Component>>, i: nat, j: nat, prev: nat, name: string,
      children: map<(nat, string), nat>, ghost creator: seq<nat>)
      returns (child: nat, children': map<(nat, string), nat>, ghost creator': seq<nat>)
      requires store.Valid() && Built(store.rows, store.tops, store.kids, children, creator, paths, i)
      requires i < |paths| && j < |paths[i]| && paths[i][j] == Normal(name)
      requires prev < |store.rows| && PathOf(store.rows, prev) == Names(paths[i][..j])
      modifies store
      ensures store.Valid() && Built(store.rows, store.tops, store.kids, children', creator', paths, i)
      ensures child < |store.rows| && PathOf(store.rows, child) == Names(paths[i][..j + 1])
      ensures (prev, name) in children ==>
                unchanged(store) && children' == children && child == children[(prev, name)]
      ensures (prev, name) !in children ==>
                && child == old(|store.rows|)
                && store.rows == old(store.rows) + [Row(name, j == |paths[i]| - 1, j == |paths[i]| - 1, Some(prev))]
                && store.tops == old(store.tops)
                && store.kids == old(store.kids)[prev := [child] + old(store.kids)[prev]] + [[]]
                && children' == children[(prev, name) := child]
    {
      children', creator' := children, creator;
      if (prev, name) !in children {
        var last := j == |paths[i]| - 1;
        InsertBuilt(store.rows, store.tops, store.kids, children, creator, paths, i, j, prev, name);
        var iter := store.InsertWithValues(Some(prev), name, last, last);
        children' := children[(prev, name) := iter];
        creator' := creator + [i];
      } else {
        ChildOf(store.rows, children, prev, name);
        NamesStep(paths[i], j);
      }
      child := children'[(prev, name)];
    }
  }
}
