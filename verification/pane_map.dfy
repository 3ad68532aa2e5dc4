/**
 * The panes of a tab (`Tab::panes`, a `BTreeMap<PaneId, Box<dyn Pane>>` in
 * zellij-server/src/tab.rs), kept as a sequence of panes in increasing id
 * order: the order in which the map iterates, which decides the order of
 * every id list the tab builds from it.
 */
module PaneMaps {
  import opened Wrappers
  import opened Panes

  /** The keys are in strictly increasing id order, so each id names at most one pane. */
  predicate IdsIncreasing(ps: seq<Pane>)
  {
    forall i, j | 0 <= i < j < |ps| :: IdBefore(ps[i].id, ps[j].id)
  }

  /** A list of ids in strictly increasing order. */
  predicate Increasing(ids: seq<PaneId>)
  {
    forall i, j | 0 <= i < j < |ids| :: IdBefore(ids[i], ids[j])
  }

  predicate Distinct(ids: seq<PaneId>)
  {
    forall i, j | 0 <= i < j < |ids| :: ids[i] != ids[j]
  }

  lemma IncreasingIsDistinct(ids: seq<PaneId>)
    requires Increasing(ids)
    ensures Distinct(ids)
  {
    forall i, j | 0 <= i < j < |ids| ensures ids[i] != ids[j] {
      IdOrder(ids[i], ids[j], ids[j]);
    }
  }

  /** `get_pane_ids`: the keys in map order. */
  function Ids(ps: seq<Pane>): (r: seq<PaneId>)
    ensures |r| == |ps|
    ensures forall i | 0 <= i < |ps| :: r[i] == ps[i].id
  {
    seq(|ps|, i requires 0 <= i < |ps| => ps[i].id)
  }

  lemma IdsIncreasingAreIncreasing(ps: seq<Pane>)
    ensures IdsIncreasing(ps) <==> Increasing(Ids(ps))
  {
  }

  /** The place of `id` in the map, if it is a key. */
  function IndexOf(ps: seq<Pane>, id: PaneId): (r: Option<nat>)
    ensures r.Some? ==> r.value < |ps| && ps[r.value].id == id
    ensures r.Some? ==> forall j | 0 <= j < r.value :: ps[j].id != id
    ensures r.None? <==> id !in Ids(ps)
  {
    if ps == [] then None
    else if ps[0].id == id then Some(0)
    else
      assert forall q :: q in Ids(ps) <==> q == ps[0].id || q in Ids(ps[1..]) by {
        assert Ids(ps) == [ps[0].id] + Ids(ps[1..]);
      }
      match IndexOf(ps[1..], id)
      case None => None
      case Some(k) => Some(k + 1)
  }

  /** With keys in order, the place of a key is the one place holding it. */
  lemma IndexOfKey(ps: seq<Pane>, k: nat)
    requires IdsIncreasing(ps) && k < |ps|
    ensures IndexOf(ps, ps[k].id) == Some(k)
  {
    var r := IndexOf(ps, ps[k].id).value;
    if r < k {
      IdOrder(ps[r].id, ps[k].id, ps[k].id);
    }
  }

  /** `self.panes.get(id).unwrap()`. */
  function Lookup(ps: seq<Pane>, id: PaneId): (p: Pane)
    requires id in Ids(ps)
    ensures p in ps && p.id == id
  {
    ps[IndexOf(ps, id).value]
  }

  /** With keys in order, looking up the key of a pane finds that pane. */
  lemma LookupKey(ps: seq<Pane>, p: Pane)
    requires IdsIncreasing(ps) && p in ps
    ensures p.id in Ids(ps) && Lookup(ps, p.id) == p
  {
    var i :| 0 <= i < |ps| && ps[i] == p;
    assert Ids(ps)[i] == p.id;
    IndexOfKey(ps, i);
  }

  /** Two lists of ids in increasing order with the same members are the same list. */
  lemma {:induction false} SameMembersSameIds(a: seq<PaneId>, b: seq<PaneId>)
    requires Increasing(a) && Increasing(b)
    requires forall q :: q in a <==> q in b
    ensures a == b
    decreases |a|
  {
    if a != [] {
      assert a[0] in a;
    }
    if b != [] {
      assert b[0] in b;
    }
    if a != [] && b != [] {
      assert a[0] in b && b[0] in a;
      var i :| 0 <= i < |b| && b[i] == a[0];
      var j :| 0 <= j < |a| && a[j] == b[0];
      IdOrder(a[0], b[0], a[0]);
      assert a[0] == b[0];
      assert forall q :: q in a <==> q == a[0] || q in a[1..] by {
        assert a == [a[0]] + a[1..];
      }
      assert forall q :: q in b <==> q == b[0] || q in b[1..] by {
        assert b == [b[0]] + b[1..];
      }
      forall q ensures q in a[1..] <==> q in b[1..] {
        if q in a[1..] {
          var k :| 0 <= k < |a[1..]| && a[1..][k] == q;
          IdOrder(a[0], a[k + 1], a[0]);
        }
        if q in b[1..] {
          var k :| 0 <= k < |b[1..]| && b[1..][k] == q;
          IdOrder(b[0], b[k + 1], b[0]);
        }
      }
      SameMembersSameIds(a[1..], b[1..]);
      assert a == [a[0]] + a[1..] && b == [b[0]] + b[1..];
    }
  }

  /** `BTreeMap::remove`: the pane with `id` leaves, every other pane stays in its place. */
  function RemovePane(ps: seq<Pane>, id: PaneId): (r: seq<Pane>)
    requires IdsIncreasing(ps)
    ensures IdsIncreasing(r)
    ensures id !in Ids(r)
    ensures forall p :: p in r <==> p in ps && p.id != id
    ensures forall q :: q in Ids(r) <==> q in Ids(ps) && q != id
  {
    match IndexOf(ps, id)
    case None =>
      NoPaneUnderMissingKey(ps, id);
      ps
    case Some(k) =>
      RemoveAtKeepsOthers(ps, k);
      ps[..k] + ps[k + 1..]
  }

  lemma NoPaneUnderMissingKey(ps: seq<Pane>, id: PaneId)
    requires id !in Ids(ps)
    ensures forall p | p in ps :: p.id != id
  {
    forall p | p in ps ensures p.id != id {
      var i :| 0 <= i < |ps| && ps[i] == p;
      assert Ids(ps)[i] == p.id;
    }
  }

  lemma RemoveAtKeepsOthers(ps: seq<Pane>, k: nat)
    requires IdsIncreasing(ps) && k < |ps|
    ensures var r := ps[..k] + ps[k + 1..];
      IdsIncreasing(r) &&
      (forall p :: p in r <==> p in ps && p.id != ps[k].id) &&
      (forall q :: q in Ids(r) <==> q in Ids(ps) && q != ps[k].id)
  {
    var r := ps[..k] + ps[k + 1..];
    RemoveAtKeepsPanes(ps, k);
    IdsMembership(r);
    IdsMembership(ps);
  }

  /** Removing the pane at `k` keeps the order and exactly the panes under other ids. */
  lemma RemoveAtKeepsPanes(ps: seq<Pane>, k: nat)
    requires IdsIncreasing(ps) && k < |ps|
    ensures var r := ps[..k] + ps[k + 1..];
      IdsIncreasing(r) && forall p :: p in r <==> p in ps && p.id != ps[k].id
  {
    var r := ps[..k] + ps[k + 1..];
    RemoveAtSorted(ps, k);
    forall p | p in ps && p.id != ps[k].id ensures p in r {
      var i :| 0 <= i < |ps| && ps[i] == p;
      if i < k {
        assert r[i] == p;
      } else {
        assert r[i - 1] == p;
      }
    }
    forall i | 0 <= i < |r| ensures r[i].id != ps[k].id {
      if i < k {
        IdOrder(ps[i].id, ps[k].id, ps[k].id);
      } else {
        IdOrder(ps[k].id, ps[i + 1].id, ps[i + 1].id);
      }
    }
  }

  /** Removing the pane at `k` keeps the others in key order. */
  lemma RemoveAtSorted(ps: seq<Pane>, k: nat)
    requires IdsIncreasing(ps) && k < |ps|
    ensures var r := ps[..k] + ps[k + 1..];
      IdsIncreasing(r) && forall i | 0 <= i < |r| :: r[i] == if i < k then ps[i] else ps[i + 1]
  {
    var r := ps[..k] + ps[k + 1..];
    assert forall i | 0 <= i < |r| :: r[i] == if i < k then ps[i] else ps[i + 1];
  }

  lemma IdsMembership(ps: seq<Pane>)
    ensures forall q :: q in Ids(ps) <==> exists p | p in ps :: p.id == q
  {
    forall q | q in Ids(ps) ensures exists p | p in ps :: p.id == q {
      var i :| 0 <= i < |ps| && Ids(ps)[i] == q;
      assert ps[i] in ps;
    }
    forall q | exists p | p in ps :: p.id == q ensures q in Ids(ps) {
      var p :| p in ps && p.id == q;
      var i :| 0 <= i < |ps| && ps[i] == p;
      assert Ids(ps)[i] == q;
    }
  }

  /** What `BTreeMap::insert` promises: `r` is `ps` with `p` put in under its key. */
  ghost predicate InsertedInto(ps: seq<Pane>, p: Pane, r: seq<Pane>)
  {
    IdsIncreasing(r) && p in r &&
    (forall q :: q in r <==> q == p || (q in ps && q.id != p.id)) &&
    (forall q :: q in Ids(r) <==> q == p.id || q in Ids(ps)) &&
    |r| == if p.id in Ids(ps) then |ps| else |ps| + 1
  }

  /**
   * `BTreeMap::insert`: a pane under a new key goes in at its place in key
   * order; a pane under an existing key replaces the old one.
   */
  function InsertPane(ps: seq<Pane>, p: Pane): (r: seq<Pane>)
    requires IdsIncreasing(ps)
    ensures IdsIncreasing(r)
    ensures p in r
    ensures forall q :: q in r <==> q == p || (q in ps && q.id != p.id)
    ensures forall q :: q in Ids(r) <==> q == p.id || q in Ids(ps)
    ensures |r| == if p.id in Ids(ps) then |ps| else |ps| + 1
  {
    if ps == [] then
      IdsMembership([p]);
      [p]
    else if ps[0].id == p.id then
      InsertReplacesHead(ps, p);
      [p] + ps[1..]
    else if IdBefore(p.id, ps[0].id) then
      InsertBeforeHead(ps, p);
      [p] + ps
    else
      IdOrder(p.id, ps[0].id, ps[0].id);
      var rest := InsertPane(ps[1..], p);
      InsertAfterHead(ps, p, rest);
      [ps[0]] + rest
  }

  lemma InsertReplacesHead(ps: seq<Pane>, p: Pane)
    requires IdsIncreasing(ps) && ps != [] && ps[0].id == p.id
    ensures InsertedInto(ps, p, [p] + ps[1..])
  {
    var r := [p] + ps[1..];
    forall q | q in ps[1..] ensures q.id != p.id {
      var i :| 1 <= i < |ps| && ps[i] == q;
      IdOrder(ps[0].id, ps[i].id, ps[i].id);
    }
    assert forall q :: q in ps <==> q == ps[0] || q in ps[1..] by {
      assert ps == [ps[0]] + ps[1..];
    }
    IdsMembership(r);
    IdsMembership(ps);
  }

  lemma InsertBeforeHead(ps: seq<Pane>, p: Pane)
    requires IdsIncreasing(ps) && ps != [] && IdBefore(p.id, ps[0].id)
    ensures InsertedInto(ps, p, [p] + ps)
  {
    var r := [p] + ps;
    forall i, j | 0 <= i < j < |r| ensures IdBefore(r[i].id, r[j].id) {
      if i == 0 && j > 1 {
        IdOrder(p.id, ps[0].id, ps[j - 1].id);
      }
    }
    forall q | q in ps ensures q.id != p.id {
      var i :| 0 <= i < |ps| && ps[i] == q;
      if i > 0 {
        IdOrder(p.id, ps[0].id, ps[i].id);
      }
      IdOrder(p.id, ps[i].id, ps[i].id);
    }
    IdsMembership(r);
    IdsMembership(ps);
  }

  lemma InsertAfterHead(ps: seq<Pane>, p: Pane, rest: seq<Pane>)
    requires IdsIncreasing(ps) && ps != [] && IdBefore(ps[0].id, p.id)
    requires InsertedInto(ps[1..], p, rest)
    ensures InsertedInto(ps, p, [ps[0]] + rest)
  {
    var r := [ps[0]] + rest;
    assert forall q :: q in ps <==> q == ps[0] || q in ps[1..] by {
      assert ps == [ps[0]] + ps[1..];
    }
    forall q | q in rest ensures IdBefore(ps[0].id, q.id) {
      if q != p {
        var i :| 1 <= i < |ps| && ps[i] == q;
      }
    }
    PrependKeepsIncreasing(ps[0], rest);
    IdOrder(p.id, ps[0].id, ps[0].id);
    IdsPrepend(ps[0], rest);
    IdsPrepend(ps[0], ps[1..]);
    assert [ps[0]] + ps[1..] == ps;
  }

  /** A pane whose id comes before every id of a sorted map may go at its front. */
  lemma PrependKeepsIncreasing(first: Pane, ps: seq<Pane>)
    requires IdsIncreasing(ps) && forall q | q in ps :: IdBefore(first.id, q.id)
    ensures IdsIncreasing([first] + ps)
  {
    var r := [first] + ps;
    forall i, j | 0 <= i < j < |r| ensures IdBefore(r[i].id, r[j].id) {
      assert r[j] == ps[j - 1];
    }
  }

  /** The ids of a map with one more pane at its front. */
  lemma IdsPrepend(first: Pane, ps: seq<Pane>)
    ensures Ids([first] + ps) == [first.id] + Ids(ps)
  {
  }

  /** `get_selectable_panes`: the selectable panes, in key order. */
  function SelectablePanes(ps: seq<Pane>): (r: seq<Pane>)
    ensures forall p :: p in r <==> p in ps && p.selectable
    ensures IdsIncreasing(ps) ==> IdsIncreasing(r)
  {
    if ps == [] then []
    else
      var rest := SelectablePanes(ps[..|ps| - 1]);
      var last := ps[|ps| - 1];
      assert forall p :: p in ps <==> p in ps[..|ps| - 1] || p == last by {
        assert ps == ps[..|ps| - 1] + [last];
      }
      if IdsIncreasing(ps) then
        forall p | p in rest ensures IdBefore(p.id, last.id) {
          var i :| 0 <= i < |ps| - 1 && ps[i] == p;
        }
        AppendKeepsIncreasing(rest, last);
        if last.selectable then rest + [last] else rest
      else
        if last.selectable then rest + [last] else rest
  }

  /** A pane whose id comes after every id of a sorted map may go at its end. */
  lemma AppendKeepsIncreasing(ps: seq<Pane>, last: Pane)
    requires IdsIncreasing(ps) && forall p | p in ps :: IdBefore(p.id, last.id)
    ensures IdsIncreasing(ps + [last])
  {
    var r := ps + [last];
    forall i, j | 0 <= i < j < |r| ensures IdBefore(r[i].id, r[j].id) {
      assert r[i] == ps[i];
    }
  }

  /** The ids of the selectable panes, in key order. */
  function SelectableIds(ps: seq<Pane>): (r: seq<PaneId>)
    ensures forall q :: q in r <==> exists p | p in ps :: p.id == q && p.selectable
    ensures IdsIncreasing(ps) ==> Increasing(r)
  {
    var s := SelectablePanes(ps);
    IdsMembership(s);
    Ids(s)
  }

  /** `self.panes.get(id).unwrap().selectable()`. */
  predicate IsSelectable(ps: seq<Pane>, id: PaneId)
    requires id in Ids(ps)
  {
    Lookup(ps, id).selectable
  }

  /** With keys in order, a key is selectable exactly when it is among the selectable ids. */
  lemma SelectableIdsAreSelectable(ps: seq<Pane>, id: PaneId)
    requires IdsIncreasing(ps) && id in Ids(ps)
    ensures IsSelectable(ps, id) <==> id in SelectableIds(ps)
  {
    var k := IndexOf(ps, id).value;
    if id in SelectableIds(ps) {
      var p :| p in ps && p.id == id && p.selectable;
      var i :| 0 <= i < |ps| && ps[i] == p;
      IndexOfKey(ps, i);
    }
  }
}
