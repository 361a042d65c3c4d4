/**
 * `get_sessions`: the sessions in `chat_sessions` order, sorted by their `created`
 * stamp, newest first (`sort(key=created, reverse=True)`, which Python keeps stable).
 */
module Recency {
  import opened Conversation

  /** Python's `a <= b` on strings: lexicographic by code point. */
  predicate LexLeq(a: string, b: string) {
    a == [] || (b != [] && (a[0] < b[0] || (a[0] == b[0] && LexLeq(a[1..], b[1..]))))
  }

  lemma {:induction false} LexLeqReflexive(a: string)
    ensures LexLeq(a, a)
  {
    if a != [] {
      LexLeqReflexive(a[1..]);
    }
  }

  lemma {:induction false} LexLeqTotal(a: string, b: string)
    ensures LexLeq(a, b) || LexLeq(b, a)
  {
    if a != [] && b != [] && a[0] == b[0] {
      LexLeqTotal(a[1..], b[1..]);
    }
  }

  lemma {:induction false} LexLeqTransitive(a: string, b: string, c: string)
    requires LexLeq(a, b) && LexLeq(b, c)
    ensures LexLeq(a, c)
  {
    if a != [] && b != [] && c != [] && a[0] == b[0] == c[0] {
      LexLeqTransitive(a[1..], b[1..], c[1..]);
    }
  }

  /** Every session is at least as recent as every session after it. */
  ghost predicate NewestFirst(s: seq<Session>) {
    forall i, j :: 0 <= i < j < |s| ==> LexLeq(s[j].created, s[i].created)
  }

  /** The sessions of `s` created at stamp `c`, in their order in `s`. */
  function CreatedAt(s: seq<Session>, c: string): seq<Session> {
    if s == [] then [] else (if s[0].created == c then [s[0]] else []) + CreatedAt(s[1..], c)
  }

  /** Puts `x` after the sessions strictly newer than it and before all others. */
  function InsertByCreated(x: Session, t: seq<Session>): seq<Session> {
    if t == [] then [x]
    else if LexLeq(t[0].created, x.created) then [x] + t
    else [t[0]] + InsertByCreated(x, t[1..])
  }

  /** Insertion sort on `created`, newest first. */
  function SortByCreated(s: seq<Session>): seq<Session> {
    if s == [] then [] else InsertByCreated(s[0], SortByCreated(s[1..]))
  }

  lemma {:induction false} InsertPermutes(x: Session, t: seq<Session>)
    ensures multiset(InsertByCreated(x, t)) == multiset(t) + multiset{x}
  {
    if t != [] && !LexLeq(t[0].created, x.created) {
      InsertPermutes(x, t[1..]);
      assert t == [t[0]] + t[1..];
    }
  }

  lemma {:induction false} InsertKeepsOrder(x: Session, t: seq<Session>)
    requires NewestFirst(t)
    ensures NewestFirst(InsertByCreated(x, t))
  {
    if t == [] {
    } else if LexLeq(t[0].created, x.created) {
      var r := [x] + t;
      forall i, j | 0 <= i < j < |r| ensures LexLeq(r[j].created, r[i].created) {
        if i == 0 && j > 1 {
          LexLeqTransitive(t[j - 1].created, t[0].created, x.created);
        }
      }
    } else {
      LexLeqTotal(t[0].created, x.created);
      InsertKeepsOrder(x, t[1..]);
      InsertPermutes(x, t[1..]);
      var rest := InsertByCreated(x, t[1..]);
      var r := [t[0]] + rest;
      forall i, j | 0 <= i < j < |r| ensures LexLeq(r[j].created, r[i].created) {
        if i == 0 {
          var y := rest[j - 1];
          assert y in multiset(rest);
          assert y == x || y in multiset(t[1..]);
          if y != x {
            var k :| 1 <= k < |t| && t[k] == y;
          }
        }
      }
    }
  }

  lemma {:induction false} InsertIsStable(x: Session, t: seq<Session>, c: string)
    ensures CreatedAt(InsertByCreated(x, t), c)
         == if x.created == c then [x] + CreatedAt(t, c) else CreatedAt(t, c)
  {
    if t == [] {
      assert InsertByCreated(x, t) == [x];
      assert [x][1..] == [];
    } else if LexLeq(t[0].created, x.created) {
      var r := [x] + t;
      assert InsertByCreated(x, t) == r;
      assert r[0] == x && r[1..] == t;
    } else {
      var rest := InsertByCreated(x, t[1..]);
      var r := [t[0]] + rest;
      assert InsertByCreated(x, t) == r;
      assert r[0] == t[0] && r[1..] == rest;
      LexLeqReflexive(x.created);
      assert t[0].created != x.created;
      InsertIsStable(x, t[1..], c);
    }
  }

  /** `get_sessions`' sort yields the same sessions, newest first. */
  lemma {:induction false} SortedNewestFirst(s: seq<Session>)
    ensures NewestFirst(SortByCreated(s))
    ensures multiset(SortByCreated(s)) == multiset(s)
  {
    if s != [] {
      SortedNewestFirst(s[1..]);
      InsertKeepsOrder(s[0], SortByCreated(s[1..]));
      InsertPermutes(s[0], SortByCreated(s[1..]));
      assert s == [s[0]] + s[1..];
    }
  }

  /** The sort is stable: sessions with the same `created` stamp keep their relative order. */
  lemma {:induction false} SortIsStable(s: seq<Session>, c: string)
    ensures CreatedAt(SortByCreated(s), c) == CreatedAt(s, c)
  {
    if s != [] {
      SortIsStable(s[1..], c);
      InsertIsStable(s[0], SortByCreated(s[1..]), c);
    }
  }

  /** `list(chat_sessions.values())`: the sessions in insertion order of their ids. */
  function Listing(order: seq<string>, sessions: map<string, Session>): (r: seq<Session>)
    requires forall k :: k in order ==> k in sessions
    ensures |r| == |order| && forall i :: 0 <= i < |order| ==> r[i] == sessions[order[i]]
  {
    if order == [] then [] else [sessions[order[0]]] + Listing(order[1..], sessions)
  }
}
