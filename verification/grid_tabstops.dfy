/**
 * The horizontal tabstops of a grid (zellij-server/src/panes/grid.rs). The
 * source keeps them in a `BTreeSet<usize>`; here they are a strictly
 * increasing sequence, which is the order in which the set iterates.
 */
module GridTabstops {
  import opened Wrappers
  import opened GridBuffers

  /** The first tabstop past column `x`, in the set's ascending order. */
  function NextTabstop(stops: seq<nat>, x: nat): (r: Option<nat>)
    ensures r.Some? ==> r.value in stops && r.value > x
    ensures r.None? <==> forall t | t in stops :: t <= x
    ensures r.Some? && StrictlyIncreasing(stops) ==> forall t | t in stops && t > x :: r.value <= t
  {
    if stops == [] then None
    else if stops[0] > x then
      TailIncreasing(stops);
      Some(stops[0])
    else
      TailIncreasing(stops);
      NextTabstop(stops[1..], x)
  }

  /** The last tabstop before column `x`: the set is walked until a tabstop at or past `x`. */
  function PreviousTabstop(stops: seq<nat>, x: nat): (r: Option<nat>)
    ensures r.Some? ==> r.value in stops && r.value < x
    ensures StrictlyIncreasing(stops) ==> (r.None? <==> forall t | t in stops :: t >= x)
    ensures r.Some? && StrictlyIncreasing(stops) ==> forall t | t in stops && t < x :: t <= r.value
  {
    if stops == [] then None
    else if stops[0] >= x then
      TailIncreasing(stops);
      None
    else
      TailIncreasing(stops);
      match PreviousTabstop(stops[1..], x)
      case None => Some(stops[0])
      case Some(p) => Some(p)
  }

  lemma TailIncreasing(stops: seq<nat>)
    requires stops != []
    ensures StrictlyIncreasing(stops) ==> StrictlyIncreasing(stops[1..])
    ensures forall t :: t in stops <==> t == stops[0] || t in stops[1..]
    ensures StrictlyIncreasing(stops) ==> forall t | t in stops[1..] :: stops[0] < t
  {
    assert stops == [stops[0]] + stops[1..];
    if StrictlyIncreasing(stops) {
      forall t | t in stops[1..] ensures stops[0] < t {
        var j :| 0 <= j < |stops[1..]| && stops[1..][j] == t;
        assert stops[j + 1] == t;
      }
    }
  }

  /** `BTreeSet::insert` on the ordered tabstops. */
  function InsertTabstop(stops: seq<nat>, v: nat): (r: seq<nat>)
    requires StrictlyIncreasing(stops)
    ensures StrictlyIncreasing(r)
    ensures forall t :: t in r <==> t in stops || t == v
  {
    if stops == [] then [v]
    else if v < stops[0] then [v] + stops
    else if v == stops[0] then stops
    else
      TailIncreasing(stops);
      var rest := InsertTabstop(stops[1..], v);
      assert forall t | t in rest :: stops[0] < t;
      PrependIncreasing(stops[0], rest);
      [stops[0]] + rest
  }

  /** `BTreeSet::remove` on the ordered tabstops. */
  function RemoveTabstop(stops: seq<nat>, v: nat): (r: seq<nat>)
    requires StrictlyIncreasing(stops)
    ensures StrictlyIncreasing(r)
    ensures forall t :: t in r <==> t in stops && t != v
  {
    if stops == [] then []
    else if stops[0] == v then
      TailIncreasing(stops);
      assert forall t | t in stops[1..] :: t != v;
      stops[1..]
    else
      TailIncreasing(stops);
      var rest := RemoveTabstop(stops[1..], v);
      assert forall t | t in rest :: stops[0] < t;
      PrependIncreasing(stops[0], rest);
      [stops[0]] + rest
  }

  lemma PrependIncreasing(first: nat, rest: seq<nat>)
    requires StrictlyIncreasing(rest)
    requires forall t | t in rest :: first < t
    ensures StrictlyIncreasing([first] + rest)
  {
    var s := [first] + rest;
    forall i, j | 0 <= i < j < |s| ensures s[i] < s[j] {
      assert s[j] == rest[j - 1] && rest[j - 1] in rest;
      if i > 0 {
        assert s[i] == rest[i - 1];
      }
    }
  }

  /** Two ordered tabstop lists with the same members are the same list. */
  lemma {:induction false} SameMembersSameList(a: seq<nat>, b: seq<nat>)
    requires StrictlyIncreasing(a) && StrictlyIncreasing(b)
    requires forall t :: t in a <==> t in b
    ensures a == b
    decreases |a|
  {
    if a != [] && b != [] {
      TailIncreasing(a);
      TailIncreasing(b);
      assert a[0] == b[0] by {
        assert a[0] in b && b[0] in a;
      }
      forall t ensures t in a[1..] <==> t in b[1..] {
        assert t in a[1..] <==> t in a && t != a[0];
        assert t in b[1..] <==> t in b && t != b[0];
      }
      SameMembersSameList(a[1..], b[1..]);
      assert a == [a[0]] + a[1..] && b == [b[0]] + b[1..];
    } else {
      EmptyTogether(a, b);
    }
  }

  lemma EmptyTogether(a: seq<nat>, b: seq<nat>)
    requires forall t :: t in a <==> t in b
    ensures a == [] <==> b == []
  {
    if a != [] {
      assert a[0] in b;
    }
    if b != [] {
      assert b[0] in a;
    }
  }

  /** Setting a tabstop that was not there and clearing it again restores the tabstops. */
  lemma ClearUndoesSet(stops: seq<nat>, v: nat)
    requires StrictlyIncreasing(stops) && v !in stops
    ensures RemoveTabstop(InsertTabstop(stops, v), v) == stops
  {
    SameMembersSameList(RemoveTabstop(InsertTabstop(stops, v), v), stops);
  }

  /** Setting a tabstop that is already there changes nothing (the set has no duplicates). */
  lemma SetIsIdempotent(stops: seq<nat>, v: nat)
    requires StrictlyIncreasing(stops)
    ensures InsertTabstop(InsertTabstop(stops, v), v) == InsertTabstop(stops, v)
  {
    SameMembersSameList(InsertTabstop(InsertTabstop(stops, v), v), InsertTabstop(stops, v));
  }

  /**
   * The loop of `move_to_previous_tabstop` stops at index `i`, the first
   * tabstop at or past `x`; the tabstop before that one is the previous tabstop.
   */
  lemma PreviousTabstopAt(stops: seq<nat>, x: nat, i: nat)
    requires StrictlyIncreasing(stops) && i <= |stops|
    requires forall k | 0 <= k < i :: stops[k] < x
    requires i < |stops| ==> stops[i] >= x
    ensures PreviousTabstop(stops, x) == if i == 0 then None else Some(stops[i - 1])
  {
    var r := PreviousTabstop(stops, x);
    if i == 0 {
      forall t | t in stops ensures t >= x {
        var j :| 0 <= j < |stops| && stops[j] == t;
        assert stops[0] <= stops[j];
      }
    } else {
      assert stops[i - 1] in stops;
      forall k | i <= k < |stops| ensures stops[k] >= x {
        if k > i {
          assert stops[i] < stops[k];
        }
      }
      var j :| 0 <= j < |stops| && stops[j] == r.value;
    }
  }

  /**
   * From a tabstop with another one after it, moving to the next tabstop and
   * then back to the previous one returns to where the cursor was.
   */
  lemma NextThenPrevious(stops: seq<nat>, x: nat)
    requires StrictlyIncreasing(stops) && x in stops
    requires NextTabstop(stops, x).Some?
    ensures PreviousTabstop(stops, NextTabstop(stops, x).value) == Some(x)
  {
    var n := NextTabstop(stops, x).value;
    var p := PreviousTabstop(stops, n);
    assert p.Some? by {
      assert x in stops && x < n;
    }
  }

  /**
   * With the tabstops of a fresh grid (every eighth column up to the width),
   * the next tabstop is the next multiple of eight, when it is within the width.
   */
  lemma DefaultNextTabstop(stops: seq<nat>, columns: nat, x: nat)
    requires StrictlyIncreasing(stops)
    requires forall t :: t in stops <==> 0 < t <= columns && t % TABSTOP_WIDTH == 0
    ensures var m := (x / TABSTOP_WIDTH + 1) * TABSTOP_WIDTH;
      NextTabstop(stops, x) == if m <= columns then Some(m) else None
  {
    var m := (x / TABSTOP_WIDTH + 1) * TABSTOP_WIDTH;
    assert m > x && m % TABSTOP_WIDTH == 0;
    var r := NextTabstop(stops, x);
    if m <= columns {
      assert m in stops;
      assert r.Some?;
      assert r.value <= m;
      NextMultipleAfter(x, r.value);
    } else {
      forall t | t in stops ensures t <= x {
        if t > x {
          NextMultipleAfter(x, t);
        }
      }
    }
  }

  lemma NextMultipleAfter(x: nat, t: nat)
    requires t % TABSTOP_WIDTH == 0 && t > x
    ensures t >= (x / TABSTOP_WIDTH + 1) * TABSTOP_WIDTH
  {
  }
}
