/** The prioritisation order: a stable sort on the key (-priority, duration), so that the
    most urgent task comes first and, among equally urgent tasks, the shortest. */
module Priority {
  import opened Entities

  /** `a` sorts strictly before `b`: higher priority, or equal priority and shorter duration. */
  predicate Outranks(a: Task, b: Task) {
    a.priority > b.priority || (a.priority == b.priority && a.duration < b.duration)
  }

  /** `a` and `b` have the same sort key. */
  predicate SameRank(a: Task, b: Task) {
    a.priority == b.priority && a.duration == b.duration
  }

  /** `a` may stand before `b` in a prioritised list. */
  predicate RankedBefore(a: Task, b: Task) {
    Outranks(a, b) || SameRank(a, b)
  }

  /** The list is ordered by priority descending, then by duration ascending. */
  predicate Ranked(s: seq<Task>) {
    forall i, j :: 0 <= i < j < |s| ==> RankedBefore(s[i], s[j])
  }

  /** The tasks of `s` whose key is (priority `p`, duration `d`), in their order in `s`. */
  function WithRank(s: seq<Task>, p: int, d: int): seq<Task> {
    if s == [] then []
    else (if s[0].priority == p && s[0].duration == d then [s[0]] else []) + WithRank(s[1..], p, d)
  }

  /** Putting in front of a ranked list a task that may precede each of its elements
      gives a ranked list. */
  lemma RankedCons(x: Task, s: seq<Task>)
    requires Ranked(s)
    requires forall y :: y in s ==> RankedBefore(x, y)
    ensures Ranked([x] + s)
  {
    forall i, j | 0 <= i < j < |[x] + s| ensures RankedBefore(([x] + s)[i], ([x] + s)[j]) {
      assert ([x] + s)[j] == s[j - 1];
      if i > 0 {
        assert ([x] + s)[i] == s[i - 1];
      }
    }
  }

  /** A suffix of a ranked list is ranked. */
  lemma RankedTail(s: seq<Task>)
    requires Ranked(s) && s != []
    ensures Ranked(s[1..])
  {
    forall i, j | 0 <= i < j < |s[1..]| ensures RankedBefore(s[1..][i], s[1..][j]) {
      assert s[1..][i] == s[i + 1] && s[1..][j] == s[j + 1];
    }
  }

  /** Inserts `t` after every leading task that outranks it, so that in a ranked list it lands
      in front of the tasks of its own rank already there. */
  function Insert(t: Task, s: seq<Task>): (r: seq<Task>)
    ensures multiset(r) == multiset(s) + multiset{t}
  {
    if s == [] || !Outranks(s[0], t) then
      [t] + s
    else
      assert s == [s[0]] + s[1..];
      [s[0]] + Insert(t, s[1..])
  }

  /** Insertion into a ranked list keeps it ranked. */
  lemma {:induction false} InsertKeepsRanked(t: Task, s: seq<Task>)
    requires Ranked(s)
    ensures Ranked(Insert(t, s))
  {
    if s == [] || !Outranks(s[0], t) {
      assert forall y :: y in s ==> RankedBefore(t, y) by {
        forall y | y in s ensures RankedBefore(t, y) {
          var j :| 0 <= j < |s| && s[j] == y;
          assert RankedBefore(s[0], s[j]);
        }
      }
      RankedCons(t, s);
    } else {
      RankedTail(s);
      InsertKeepsRanked(t, s[1..]);
      var rest := Insert(t, s[1..]);
      assert forall y :: y in rest ==> RankedBefore(s[0], y) by {
        forall y | y in rest ensures RankedBefore(s[0], y) {
          assert y in multiset(rest);
          if y != t {
            var j :| 0 <= j < |s[1..]| && s[1..][j] == y;
            assert RankedBefore(s[0], s[j + 1]);
          }
        }
      }
      RankedCons(s[0], rest);
    }
  }

  /** `sorted(tasks, key=lambda t: (-t.priority, t.duration))`, as an insertion sort that
      inserts each task ahead of the equally ranked tasks registered after it. */
  function Prioritize(s: seq<Task>): (r: seq<Task>)
    ensures multiset(r) == multiset(s)
    ensures Ranked(r)
  {
    if s == [] then []
    else
      assert s == [s[0]] + s[1..];
      InsertKeepsRanked(s[0], Prioritize(s[1..]));
      Insert(s[0], Prioritize(s[1..]))
  }

  /** Inserting `t` adds it in front of the tasks of its own rank and leaves every other
      rank untouched. */
  lemma {:induction false} InsertKeepsRankOrder(t: Task, s: seq<Task>, p: int, d: int)
    ensures WithRank(Insert(t, s), p, d)
         == (if t.priority == p && t.duration == d then [t] else []) + WithRank(s, p, d)
  {
    if s == [] || !Outranks(s[0], t) {
      assert ([t] + s)[1..] == s;
    } else {
      var rest := Insert(t, s[1..]);
      InsertKeepsRankOrder(t, s[1..], p, d);
      assert ([s[0]] + rest)[1..] == rest;
    }
  }

  /** Stability: for every key, the tasks with that key appear in the prioritised list in
      exactly the order they have in the input. */
  lemma {:induction false} PrioritizeIsStable(s: seq<Task>, p: int, d: int)
    ensures WithRank(Prioritize(s), p, d) == WithRank(s, p, d)
  {
    if s != [] {
      PrioritizeIsStable(s[1..], p, d);
      InsertKeepsRankOrder(s[0], Prioritize(s[1..]), p, d);
    }
  }

  /** A list that is already ranked is returned unchanged. */
  lemma {:induction false} PrioritizeRankedIsIdentity(s: seq<Task>)
    requires Ranked(s)
    ensures Prioritize(s) == s
  {
    if s != [] {
      var rest := s[1..];
      RankedTail(s);
      PrioritizeRankedIsIdentity(rest);
      assert Prioritize(s) == Insert(s[0], rest);
      if rest != [] {
        assert RankedBefore(s[0], s[1]);
        assert !Outranks(rest[0], s[0]);
      }
      assert Insert(s[0], rest) == [s[0]] + rest;
      assert s == [s[0]] + rest;
    }
  }

  /** A task is in the rank-`(p, d)` part of `s` exactly when it is in `s` with that key. */
  lemma {:induction false} WithRankMembers(s: seq<Task>, p: int, d: int, x: Task)
    ensures x in WithRank(s, p, d) <==> x in s && x.priority == p && x.duration == d
  {
    if s != [] {
      WithRankMembers(s[1..], p, d, x);
      assert s == [s[0]] + s[1..];
    }
  }

  /** Lists with the same first task that agree on one rank agree on it after that task. */
  lemma WithRankUncons(a: seq<Task>, b: seq<Task>, p: int, d: int)
    requires a != [] && b != [] && a[0] == b[0]
    requires WithRank(a, p, d) == WithRank(b, p, d)
    ensures WithRank(a[1..], p, d) == WithRank(b[1..], p, d)
  {
    var h := if a[0].priority == p && a[0].duration == d then [a[0]] else [];
    assert WithRank(a, p, d) == h + WithRank(a[1..], p, d);
    assert WithRank(b, p, d) == h + WithRank(b[1..], p, d);
    assert WithRank(a[1..], p, d) == WithRank(a, p, d)[|h|..];
  }

  /** A list with no task of any rank is empty. */
  lemma NoRankEmpty(s: seq<Task>)
    ensures (forall p, d :: WithRank(s, p, d) == []) ==> s == []
  {
    if s != [] {
      WithRankMembers(s, s[0].priority, s[0].duration, s[0]);
    }
  }

  /** Lists that agree on the rank of `x` both hold `x` or both lack it. */
  lemma SharedMember(a: seq<Task>, b: seq<Task>, x: Task)
    requires WithRank(a, x.priority, x.duration) == WithRank(b, x.priority, x.duration)
    ensures x in a <==> x in b
  {
    WithRankMembers(a, x.priority, x.duration, x);
    WithRankMembers(b, x.priority, x.duration, x);
  }

  /** The first task of a ranked list may stand before each of its tasks. */
  lemma RankedHead(s: seq<Task>, y: Task)
    requires Ranked(s) && y in s
    ensures RankedBefore(s[0], y)
  {
    var i :| 0 <= i < |s| && s[i] == y;
    if i > 0 {
      assert RankedBefore(s[0], s[i]);
    }
  }

  /** Two non-empty ranked lists that agree rank by rank start with the same task. */
  lemma RankedSameHead(a: seq<Task>, b: seq<Task>)
    requires Ranked(a) && Ranked(b) && a != []
    requires forall p, d :: WithRank(a, p, d) == WithRank(b, p, d)
    ensures b != [] && a[0] == b[0]
  {
    var x := a[0];
    var p, d := x.priority, x.duration;
    SharedMember(a, b, x);
    var y := b[0];
    assert WithRank(a, y.priority, y.duration) == WithRank(b, y.priority, y.duration);
    SharedMember(a, b, y);
    RankedHead(a, y);
    RankedHead(b, x);
    assert y.priority == p && y.duration == d;
    var w := WithRank(a, p, d);
    assert w == [x] + WithRank(a[1..], p, d);
    assert w == WithRank(b, p, d) == [y] + WithRank(b[1..], p, d);
    assert w[0] == x && w[0] == y;
  }

  /** Two ranked lists that agree rank by rank are the same list. */
  lemma {:induction false} RankedStableUnique(a: seq<Task>, b: seq<Task>)
    requires Ranked(a) && Ranked(b)
    requires forall p, d :: WithRank(a, p, d) == WithRank(b, p, d)
    ensures a == b
    decreases |a|
  {
    if a == [] {
      NoRankEmpty(b);
    } else {
      RankedSameHead(a, b);
      forall p, d ensures WithRank(a[1..], p, d) == WithRank(b[1..], p, d) {
        WithRankUncons(a, b, p, d);
      }
      RankedTail(a);
      RankedTail(b);
      RankedStableUnique(a[1..], b[1..]);
      assert a == [a[0]] + a[1..] && b == [b[0]] + b[1..];
    }
  }

  /** `Prioritize` is the stable sort: any ranked list that keeps, for every key, the tasks of
      that key in their input order is exactly `Prioritize(s)`. */
  lemma PrioritizeIsTheStableSort(s: seq<Task>, out: seq<Task>)
    requires Ranked(out)
    requires forall p, d :: WithRank(out, p, d) == WithRank(s, p, d)
    ensures out == Prioritize(s)
  {
    forall p, d ensures WithRank(out, p, d) == WithRank(Prioritize(s), p, d) {
      PrioritizeIsStable(s, p, d);
    }
    RankedStableUnique(out, Prioritize(s));
  }
}
