/** Filtering, kept apart from the item types it is used on. */
module Lists {

  function Keep<T>(keep: T -> bool, s: seq<T>): seq<T> {
    if s == [] then [] else (if keep(s[0]) then [s[0]] else []) + Keep(keep, s[1..])
  }

  lemma Assoc<T>(a: seq<T>, b: seq<T>, c: seq<T>)
    ensures a + b + c == a + (b + c)
  {
  }

  lemma {:induction false} KeepConcat<T>(keep: T -> bool, a: seq<T>, b: seq<T>)
    ensures Keep(keep, a + b) == Keep(keep, a) + Keep(keep, b)
  {
    if a == [] {
      assert a + b == b;
    } else {
      KeepConcat(keep, a[1..], b);
      assert (a + b)[1..] == a[1..] + b;
      Assoc(if keep(a[0]) then [a[0]] else [], Keep(keep, a[1..]), Keep(keep, b));
    }
  }

  lemma {:induction false} KeepAll<T>(keep: T -> bool, s: seq<T>)
    requires forall x :: x in s ==> keep(x)
    ensures Keep(keep, s) == s
  {
    if s != [] {
      KeepAll(keep, s[1..]);
      assert s == [s[0]] + s[1..];
    }
  }

  lemma {:induction false} KeepNothing<T>(keep: T -> bool, s: seq<T>)
    requires forall x :: x in s ==> !keep(x)
    ensures Keep(keep, s) == []
  {
    if s != [] {
      KeepNothing(keep, s[1..]);
      assert s[0] in s;
    }
  }

  lemma {:induction false} KeepMembers<T>(keep: T -> bool, s: seq<T>, x: T)
    ensures x in Keep(keep, s) <==> x in s && keep(x)
  {
    if s != [] {
      KeepMembers(keep, s[1..], x);
      assert s == [s[0]] + s[1..];
    }
  }

  /** Only what the condition says of the members matters. */
  lemma {:induction false} KeepSame<T>(p: T -> bool, q: T -> bool, s: seq<T>)
    requires forall x :: x in s ==> (p(x) <==> q(x))
    ensures Keep(p, s) == Keep(q, s)
  {
    if s != [] {
      KeepSame(p, q, s[1..]);
      assert s[0] in s;
    }
  }

  /** Filtering twice is filtering by both conditions. */
  lemma {:induction false} KeepTwice<T>(p: T -> bool, q: T -> bool, both: T -> bool, s: seq<T>)
    requires forall x :: x in s ==> (both(x) <==> p(x) && q(x))
    ensures Keep(p, Keep(q, s)) == Keep(both, s)
  {
    if s != [] {
      var rest := s[1..];
      KeepTwice(p, q, both, rest);
      assert s[0] in s;
      if q(s[0]) {
        assert ([s[0]] + Keep(q, rest))[1..] == Keep(q, rest);
      } else {
        assert Keep(q, s) == Keep(q, rest);
      }
    }
  }
}
