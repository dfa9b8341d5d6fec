/** The abstract log: an ordered set of events in which the first occurrence of an id
    wins. */
module FirstWins {
  import opened Ndjson

  /** The events of a batch that an append keeps, given the ids already stored. */
  function Fresh(seen: set<string>, batch: seq<Event>): seq<Event>
    decreases |batch|
  {
    if batch == [] then []
    else if batch[0].id in seen then Fresh(seen, batch[1..])
    else [batch[0]] + Fresh(seen + {batch[0].id}, batch[1..])
  }

  function IdList(events: seq<Event>): (r: seq<string>)
    ensures |r| == |events|
    ensures forall i | 0 <= i < |r| :: r[i] == events[i].id
  {
    seq(|events|, i requires 0 <= i < |events| => events[i].id)
  }

  function Flatten<T>(parts: seq<seq<T>>): seq<T> {
    if parts == [] then [] else parts[0] + Flatten(parts[1..])
  }

  lemma {:induction false} FlattenSnoc<T>(parts: seq<seq<T>>, last: seq<T>)
    ensures Flatten(parts + [last]) == Flatten(parts) + last
  {
    if parts == [] {
      assert parts + [last] == [last];
      assert [last][1..] == [];
    } else {
      assert (parts + [last])[1..] == parts[1..] + [last];
      FlattenSnoc(parts[1..], last);
    }
  }

  lemma IdsConcat(a: seq<Event>, b: seq<Event>)
    ensures Ids(a + b) == Ids(a) + Ids(b)
  {
    forall x | x in Ids(a) + Ids(b) ensures x in Ids(a + b) {
      if x in Ids(a) {
        var e :| e in a && e.id == x;
        assert e in a + b;
      } else {
        var e :| e in b && e.id == x;
        assert e in a + b;
      }
    }
  }

  lemma IdsHead(events: seq<Event>)
    requires events != []
    ensures Ids(events) == {events[0].id} + Ids(events[1..])
  {
    assert events == [events[0]] + events[1..];
    IdsConcat([events[0]], events[1..]);
  }

  /** Absorbing two batches one after the other is absorbing them joined. */
  lemma {:induction false} FreshConcat(seen: set<string>, a: seq<Event>, b: seq<Event>)
    ensures Fresh(seen, a + b) == Fresh(seen, a) + Fresh(seen + Ids(a), b)
    decreases |a|
  {
    if a == [] {
      assert a + b == b;
      assert seen + Ids(a) == seen;
    } else {
      assert (a + b)[1..] == a[1..] + b;
      IdsHead(a);
      if a[0].id in seen {
        FreshConcat(seen, a[1..], b);
        assert seen + Ids(a) == seen + Ids(a[1..]);
      } else {
        FreshConcat(seen + {a[0].id}, a[1..], b);
        assert seen + Ids(a) == seen + {a[0].id} + Ids(a[1..]);
      }
    }
  }

  /** What a batch adds: exactly the ids not yet seen, each once. */
  lemma {:induction false} FreshIds(seen: set<string>, batch: seq<Event>)
    ensures Ids(Fresh(seen, batch)) == Ids(batch) - seen
    ensures Distinct(Fresh(seen, batch))
    decreases |batch|
  {
    if batch != [] {
      IdsHead(batch);
      if batch[0].id in seen {
        FreshIds(seen, batch[1..]);
      } else {
        var rest := Fresh(seen + {batch[0].id}, batch[1..]);
        FreshIds(seen + {batch[0].id}, batch[1..]);
        IdsConcat([batch[0]], rest);
        assert forall e | e in rest :: e.id in Ids(rest);
      }
    }
  }

  lemma {:induction false} FreshOfNew(seen: set<string>, batch: seq<Event>)
    requires Distinct(batch) && Ids(batch) !! seen
    ensures Fresh(seen, batch) == batch
    decreases |batch|
  {
    if batch != [] {
      assert batch[0].id in Ids(batch);
      IdsHead(batch);
      assert forall e | e in batch[1..] :: e.id != batch[0].id;
      FreshOfNew(seen + {batch[0].id}, batch[1..]);
    }
  }

  lemma {:induction false} FreshOfOld(seen: set<string>, batch: seq<Event>)
    requires Ids(batch) <= seen
    ensures Fresh(seen, batch) == []
    decreases |batch|
  {
    if batch != [] {
      assert batch[0].id in Ids(batch);
      IdsHead(batch);
      FreshOfOld(seen, batch[1..]);
    }
  }

  lemma DistinctConcat(a: seq<Event>, b: seq<Event>)
    requires Distinct(a) && Distinct(b) && Ids(a) !! Ids(b)
    ensures Distinct(a + b)
  {
    assert forall e | e in a :: e.id in Ids(a);
    assert forall e | e in b :: e.id in Ids(b);
  }

  /** A second push of the same batch stores nothing. */
  lemma FreshTwice(seen: set<string>, batch: seq<Event>)
    ensures Fresh(seen + Ids(Fresh(seen, batch)), batch) == []
  {
    FreshIds(seen, batch);
    FreshOfOld(seen + Ids(Fresh(seen, batch)), batch);
  }

  /** The first occurrence of each id, read off a sequence from its right end: the
      independent reading of "first wins". */
  function FirstOccurrences(events: seq<Event>): seq<Event> {
    if events == [] then []
    else
      var front, last := events[..|events| - 1], events[|events| - 1];
      FirstOccurrences(front) + if last.id in Ids(front) then [] else [last]
  }

  lemma {:induction false} FreshIsFirstOccurrences(events: seq<Event>)
    ensures Fresh({}, events) == FirstOccurrences(events)
    decreases |events|
  {
    if events != [] {
      var front, last := events[..|events| - 1], events[|events| - 1];
      FreshIsFirstOccurrences(front);
      assert events == front + [last];
      FreshConcat({}, front, [last]);
      assert [last][1..] == [];
      assert {} + Ids(front) == Ids(front);
    }
  }

  /** The stored id set does not depend on the order in which the batches arrive. */
  lemma SameIdsInAnyOrder(p: seq<seq<Event>>, q: seq<seq<Event>>)
    requires multiset(p) == multiset(q)
    ensures Ids(Fresh({}, Flatten(p))) == Ids(Fresh({}, Flatten(q)))
  {
    FreshIds({}, Flatten(p));
    FreshIds({}, Flatten(q));
    forall x ensures x in Ids(Flatten(p)) <==> x in Ids(Flatten(q)) {
      IdsFlatten(p, x);
      IdsFlatten(q, x);
      assert forall batch :: batch in p <==> batch in multiset(p);
      assert forall batch :: batch in q <==> batch in multiset(q);
    }
  }

  lemma {:induction false} IdsFlatten(parts: seq<seq<Event>>, x: string)
    ensures x in Ids(Flatten(parts)) <==> exists batch | batch in parts :: x in Ids(batch)
  {
    if parts != [] {
      IdsFlatten(parts[1..], x);
      IdsConcat(parts[0], Flatten(parts[1..]));
      assert forall batch :: batch in parts <==> batch == parts[0] || batch in parts[1..];
    }
  }

  /** `sub` is what is left of `whole` when some elements are dropped. */
  ghost predicate IsSubsequence<T>(sub: seq<T>, whole: seq<T>) {
    if sub == [] then true
    else if whole == [] then false
    else if sub[0] == whole[0] then IsSubsequence(sub[1..], whole[1..])
    else IsSubsequence(sub, whole[1..])
  }

  lemma {:induction false} DropHeadSubsequence<T>(sub: seq<T>, whole: seq<T>)
    requires IsSubsequence(sub, whole) && sub != []
    ensures IsSubsequence(sub[1..], whole)
    decreases |whole|
  {
    if sub[0] == whole[0] {
      if sub[1..] != [] && sub[1..][0] == whole[0] {
        DropHeadSubsequence(sub[1..], whole[1..]);
      }
    } else {
      DropHeadSubsequence(sub, whole[1..]);
      if sub[1..] != [] && sub[1..][0] == whole[0] {
        DropHeadSubsequence(sub[1..], whole[1..]);
      }
    }
  }

  lemma {:induction false} SkipSubsequence<T>(sub: seq<T>, whole: seq<T>)
    requires whole != [] && IsSubsequence(sub, whole[1..])
    ensures IsSubsequence(sub, whole)
  {
    if sub != [] && sub[0] == whole[0] {
      DropHeadSubsequence(sub, whole[1..]);
    }
  }

  /** An append keeps the batch's own order. */
  lemma {:induction false} FreshIsSubsequence(seen: set<string>, batch: seq<Event>)
    ensures IsSubsequence(Fresh(seen, batch), batch)
    decreases |batch|
  {
    if batch != [] {
      if batch[0].id in seen {
        FreshIsSubsequence(seen, batch[1..]);
        SkipSubsequence(Fresh(seen, batch[1..]), batch);
      } else {
        FreshIsSubsequence(seen + {batch[0].id}, batch[1..]);
      }
    }
  }
}
