/** String order, the (at, id) key order shared by server and client, and sorting by it. */
module Ordering {

  /** `a < b` on strings: lexicographic by character. */
  predicate Less(a: string, b: string) {
    if b == "" then false
    else if a == "" then true
    else if a[0] != b[0] then a[0] < b[0]
    else Less(a[1..], b[1..])
  }

  /** The dictionary order in one glance: after a common beginning, `a` ends first or has the
      smaller character. */
  ghost predicate Earlier(a: string, b: string) {
    exists k | 0 <= k <= |a| && k < |b| :: a[..k] == b[..k] && (k == |a| || a[k] < b[k])
  }

  lemma {:induction false} LessIff(a: string, b: string)
    ensures Less(a, b) <==> Earlier(a, b)
  {
    if a != "" && b != "" && a[0] == b[0] {
      LessIff(a[1..], b[1..]);
      EarlierTails(a, b);
    } else if Less(a, b) {
      assert a[..0] == b[..0];
    }
  }

  lemma EarlierTails(a: string, b: string)
    requires a != "" && b != "" && a[0] == b[0]
    ensures Earlier(a, b) <==> Earlier(a[1..], b[1..])
  {
    if Earlier(a, b) {
      var k :| 0 <= k <= |a| && k < |b| && a[..k] == b[..k] && (k == |a| || a[k] < b[k]);
      assert k > 0 && a[1..][..k - 1] == a[..k][1..] && b[1..][..k - 1] == b[..k][1..];
    }
    if Earlier(a[1..], b[1..]) {
      var k :| 0 <= k <= |a[1..]| && k < |b[1..]| && a[1..][..k] == b[1..][..k]
               && (k == |a[1..]| || a[1..][k] < b[1..][k]);
      assert a[..k + 1] == [a[0]] + a[1..][..k] && b[..k + 1] == [b[0]] + b[1..][..k];
    }
  }

  lemma {:induction false} LessIsTotal(a: string, b: string)
    ensures a == b || Less(a, b) || Less(b, a)
    ensures !(a == b && Less(a, b))
    ensures !(Less(a, b) && Less(b, a))
  {
    if a != "" && b != "" && a[0] == b[0] {
      LessIsTotal(a[1..], b[1..]);
      assert a == [a[0]] + a[1..] && b == [b[0]] + b[1..];
    }
  }

  lemma {:induction false} LessIsTransitive(a: string, b: string, c: string)
    requires Less(a, b) && Less(b, c)
    ensures Less(a, c)
  {
    if a != "" && a[0] == b[0] == c[0] {
      LessIsTransitive(a[1..], b[1..], c[1..]);
    }
  }

  datatype Key = Key(at: string, id: string)

  /** The comparator's "comes first": by `at`, ties by `id`. */
  predicate Before(a: Key, b: Key) {
    if a.at != b.at then Less(a.at, b.at) else Less(a.id, b.id)
  }

  /** Older by time, ties by id, both read as dictionary order. */
  ghost predicate Older(a: Key, b: Key) {
    Earlier(a.at, b.at) || (a.at == b.at && Earlier(a.id, b.id))
  }

  lemma BeforeIff(a: Key, b: Key)
    ensures Before(a, b) <==> Older(a, b)
  {
    LessIff(a.at, b.at);
    LessIff(a.id, b.id);
    LessIsTotal(a.at, b.at);
  }

  lemma BeforeIsTotal(a: Key, b: Key)
    ensures a == b || Before(a, b) || Before(b, a)
    ensures !Before(a, a)
    ensures !(Before(a, b) && Before(b, a))
  {
    LessIsTotal(a.at, b.at);
    LessIsTotal(a.id, b.id);
    LessIsTotal(a.id, a.id);
  }

  lemma BeforeIsTransitive(a: Key, b: Key, c: Key)
    requires Before(a, b) && Before(b, c)
    ensures Before(a, c)
  {
    LessIsTotal(a.at, b.at);
    LessIsTotal(b.at, c.at);
    if a.at != b.at && b.at != c.at {
      LessIsTransitive(a.at, b.at, c.at);
      LessIsTotal(a.at, c.at);
    } else if a.at == b.at == c.at {
      LessIsTransitive(a.id, b.id, c.id);
    }
  }

  // ------------------------------------------------------------------ sorting

  predicate Sorted<T>(key: T -> Key, s: seq<T>) {
    forall i, j | 0 <= i < j < |s| :: Before(key(s[i]), key(s[j]))
  }

  predicate DistinctKeys<T>(key: T -> Key, s: seq<T>) {
    forall i, j | 0 <= i < j < |s| :: key(s[i]) != key(s[j])
  }

  function Insert<T>(key: T -> Key, x: T, s: seq<T>): seq<T> {
    if s == [] || Before(key(x), key(s[0])) then [x] + s
    else [s[0]] + Insert(key, x, s[1..])
  }

  /** `sort` with the key comparator. */
  function Sort<T>(key: T -> Key, s: seq<T>): seq<T> {
    if s == [] then [] else Insert(key, s[0], Sort(key, s[1..]))
  }

  lemma {:induction false} InsertSorts<T>(key: T -> Key, x: T, s: seq<T>)
    requires Sorted(key, s) && forall y | y in s :: key(y) != key(x)
    ensures Sorted(key, Insert(key, x, s))
    ensures multiset(Insert(key, x, s)) == multiset(s) + multiset{x}
  {
    if s != [] {
      assert s == [s[0]] + s[1..];
      if Before(key(x), key(s[0])) {
        forall j | 0 < j < |s| ensures Before(key(x), key(s[j])) {
          BeforeIsTransitive(key(x), key(s[0]), key(s[j]));
        }
      } else {
        BeforeIsTotal(key(x), key(s[0]));
        InsertSorts(key, x, s[1..]);
        var rest := Insert(key, x, s[1..]);
        forall j | 0 <= j < |rest| ensures Before(key(s[0]), key(rest[j])) {
          assert rest[j] in multiset(rest);
          assert rest[j] == x || rest[j] in s[1..];
        }
      }
    }
  }

  /** Sorting permutes, and with distinct keys the result is strictly ascending. */
  lemma {:induction false} SortSorts<T>(key: T -> Key, s: seq<T>)
    requires DistinctKeys(key, s)
    ensures Sorted(key, Sort(key, s))
    ensures multiset(Sort(key, s)) == multiset(s)
  {
    if s != [] {
      SortSorts(key, s[1..]);
      forall y | y in Sort(key, s[1..]) ensures key(y) != key(s[0]) {
        assert y in multiset(Sort(key, s[1..]));
        assert y in s[1..];
      }
      InsertSorts(key, s[0], Sort(key, s[1..]));
      assert s == [s[0]] + s[1..];
    }
  }

  lemma {:induction false} CountDistinct<T>(s: seq<T>, x: T)
    requires forall i, j | 0 <= i < j < |s| :: s[i] != s[j]
    ensures multiset(s)[x] == if x in s then 1 else 0
  {
    if s != [] {
      assert s == [s[0]] + s[1..];
      CountDistinct(s[1..], x);
    }
  }

  lemma SameSize<T>(a: seq<T>, b: seq<T>)
    requires multiset(a) == multiset(b)
    ensures |a| == |b|
  {
    assert |multiset(a)| == |a| && |multiset(b)| == |b|;
  }

  lemma SameLeast<T>(key: T -> Key, a: seq<T>, b: seq<T>)
    requires Sorted(key, a) && Sorted(key, b) && multiset(a) == multiset(b) && a != [] && b != []
    ensures a[0] == b[0]
  {
    assert a[0] in multiset(b) && b[0] in multiset(a);
    var i :| 0 <= i < |b| && b[i] == a[0];
    var j :| 0 <= j < |a| && a[j] == b[0];
    BeforeIsTotal(key(a[0]), key(b[0]));
    assert i == 0 || j == 0;
  }

  /** There is one ascending arrangement: whatever algorithm sorts, the result is this. */
  lemma {:induction false} SortedIsUnique<T>(key: T -> Key, a: seq<T>, b: seq<T>)
    requires Sorted(key, a) && Sorted(key, b) && multiset(a) == multiset(b)
    ensures a == b
    decreases |a|
  {
    if a == [] {
      assert |multiset(b)| == 0;
    } else {
      SameSize(a, b);
      SameLeast(key, a, b);
      assert a == [a[0]] + a[1..] && b == [b[0]] + b[1..];
      assert multiset(a[1..]) == multiset(a) - multiset{a[0]};
      assert multiset(b[1..]) == multiset(b) - multiset{b[0]};
      SortedIsUnique(key, a[1..], b[1..]);
    }
  }
}
