/**
 * Sequence helpers shared by the model: the LINQ operators the source applies
 * to its lists (Where with a not-contained test, Distinct, Except) and the
 * first-occurrence removal of List<T>.Remove / Collection<T>.Remove.
 */
module Common {

  datatype Option<T> = None | Some(value: T)

  datatype Result<T, E> = Success(value: T) | Failure(error: E)

  /** No element occurs twice. */
  predicate NoDup<T(==)>(s: seq<T>)
  {
    forall i, j :: 0 <= i < j < |s| ==> s[i] != s[j]
  }

  /** Every element of s is in t. */
  predicate AllIn<T(==)>(s: seq<T>, t: set<T>)
  {
    forall i :: 0 <= i < |s| ==> s[i] in t
  }

  /** a and b hold the same elements, ignoring order and repetition. */
  predicate SameMembers<T(==)>(a: seq<T>, b: seq<T>)
  {
    && (forall i :: 0 <= i < |a| ==> a[i] in b)
    && (forall j :: 0 <= j < |b| ==> b[j] in a)
  }

  /**
   * The elements of s that do not occur in excl, in their order in s and with
   * their duplicates.
   */
  function Without<T(==)>(s: seq<T>, excl: seq<T>): (r: seq<T>)
    ensures forall i :: 0 <= i < |r| ==> r[i] in s && r[i] !in excl
    ensures forall i :: 0 <= i < |s| && s[i] !in excl ==> s[i] in r
    ensures |r| <= |s|
  {
    if s == [] then []
    else (if s[0] in excl then [] else [s[0]]) + Without(s[1..], excl)
  }

  /** Without keeps every occurrence of what it keeps. */
  lemma {:induction false} WithoutCount<T>(s: seq<T>, excl: seq<T>, x: T)
    ensures multiset(Without(s, excl))[x] == if x in excl then 0 else multiset(s)[x]
  {
    if s != [] {
      assert s == [s[0]] + s[1..];
      WithoutCount(s[1..], excl, x);
    }
  }

  /** Without keeps a sub-multiset of its input. */
  lemma WithoutSub<T>(s: seq<T>, excl: seq<T>)
    ensures multiset(Without(s, excl)) <= multiset(s)
  {
    forall x
      ensures multiset(Without(s, excl))[x] <= multiset(s)[x]
    {
      WithoutCount(s, excl, x);
    }
  }

  /** Taking away every element outside excl leaves only elements of excl. */
  lemma WithoutRest<T>(live: seq<T>, s: seq<T>, excl: seq<T>, x: T)
    requires multiset(live) + multiset(Without(s, excl)) == multiset(s)
    requires x in live
    ensures x in excl
  {
    WithoutCount(s, excl, x);
    assert multiset(live)[x] > 0;
  }

  /** Membership in Without, stated over elements. */
  lemma WithoutMember<T>(s: seq<T>, excl: seq<T>, x: T)
    ensures x in Without(s, excl) <==> x in s && x !in excl
  {
    var r := Without(s, excl);
    if x in r {
      var i :| 0 <= i < |r| && r[i] == x;
    }
    if x in s && x !in excl {
      var i :| 0 <= i < |s| && s[i] == x;
    }
  }

  /** The distinct elements of s, each at the place of its first occurrence (LINQ Distinct). */
  function Distinct<T(==)>(s: seq<T>): (r: seq<T>)
    ensures NoDup(r)
    ensures forall i :: 0 <= i < |r| ==> r[i] in s
    ensures forall i :: 0 <= i < |s| ==> s[i] in r
    ensures |r| <= |s|
  {
    if s == [] then []
    else
      var d := Distinct(s[..|s| - 1]);
      assert forall i :: 0 <= i < |s| - 1 ==> s[i] == s[..|s| - 1][i];
      if s[|s| - 1] in d then d else d + [s[|s| - 1]]
  }

  /** Membership in Distinct, stated over elements. */
  lemma DistinctMember<T>(s: seq<T>, x: T)
    ensures x in Distinct(s) <==> x in s
  {
    var r := Distinct(s);
    if x in r {
      var i :| 0 <= i < |r| && r[i] == x;
    }
    if x in s {
      var i :| 0 <= i < |s| && s[i] == x;
    }
  }

  /** LINQ Except: the distinct elements of s that do not occur in excl. */
  function Except<T(==)>(s: seq<T>, excl: seq<T>): (r: seq<T>)
    ensures NoDup(r)
    ensures forall i :: 0 <= i < |r| ==> r[i] in s && r[i] !in excl
    ensures forall i :: 0 <= i < |s| && s[i] !in excl ==> s[i] in r
  {
    var w := Distinct(Without(s, excl));
    assert forall i :: 0 <= i < |s| && s[i] !in excl ==> s[i] in w by {
      forall i | 0 <= i < |s| && s[i] !in excl ensures s[i] in w {
        WithoutMember(s, excl, s[i]);
        DistinctMember(Without(s, excl), s[i]);
      }
    }
    w
  }

  /** Removes the first occurrence of x, if any (Collection<T>.Remove). */
  function RemoveFirst<T(==)>(s: seq<T>, x: T): (r: seq<T>)
    ensures x !in s ==> r == s
    ensures x in s ==> |r| == |s| - 1
    ensures x in s ==> exists k :: 0 <= k < |s| && s[k] == x && x !in s[..k] && r == s[..k] + s[k + 1..]
  {
    if s == [] then []
    else if s[0] == x then
      assert s[..0] + s[1..] == s[1..];
      s[1..]
    else
      var rest := RemoveFirst(s[1..], x);
      if x in s[1..] then
        var k :| 0 <= k < |s[1..]| && s[1..][k] == x && x !in s[1..][..k] && rest == s[1..][..k] + s[1..][k + 1..];
        ConsSplit(s, k, x, rest);
        [s[0]] + rest
      else
        [s[0]] + rest
  }

  /** A split of s[1..] at its first x, with s[0] put back in front, is the split of s at its first x. */
  lemma ConsSplit<T>(s: seq<T>, k: nat, x: T, rest: seq<T>)
    requires 0 < |s| && s[0] != x && k < |s| - 1
    requires s[1..][k] == x && x !in s[1..][..k] && rest == s[1..][..k] + s[1..][k + 1..]
    ensures s[k + 1] == x && x !in s[..k + 1] && [s[0]] + rest == s[..k + 1] + s[k + 2..]
  {
    assert s[..k + 1] == [s[0]] + s[1..][..k];
    assert s[k + 2..] == s[1..][k + 1..];
  }

  /** RemoveFirst takes away exactly one occurrence of x. */
  lemma {:induction false} RemoveFirstCount<T>(s: seq<T>, x: T)
    ensures multiset(RemoveFirst(s, x)) == if x in s then multiset(s) - multiset{x} else multiset(s)
  {
    if s != [] {
      assert s == [s[0]] + s[1..];
      if s[0] != x {
        RemoveFirstCount(s[1..], x);
      }
    }
  }

  /** Membership after RemoveFirst: nothing new appears, every other element stays. */
  lemma RemoveFirstMember<T>(s: seq<T>, x: T, y: T)
    ensures y in RemoveFirst(s, x) ==> y in s
    ensures y in s && y != x ==> y in RemoveFirst(s, x)
  {
    RemoveFirstCount(s, x);
    assert y in RemoveFirst(s, x) <==> multiset(RemoveFirst(s, x))[y] > 0;
    assert y in s <==> multiset(s)[y] > 0;
  }

  /** On a duplicate-free sequence RemoveFirst removes x entirely and keeps the rest duplicate-free. */
  lemma {:induction false} RemoveFirstNoDup<T>(s: seq<T>, x: T)
    requires NoDup(s)
    ensures NoDup(RemoveFirst(s, x)) && x !in RemoveFirst(s, x)
  {
    if s != [] {
      var t := s[1..];
      assert NoDup(t) by {
        forall i, j | 0 <= i < j < |t|
          ensures t[i] != t[j]
        {
          assert t[i] == s[i + 1] && t[j] == s[j + 1];
        }
      }
      assert s[0] !in t by {
        forall j | 0 <= j < |t|
          ensures t[j] != s[0]
        {
          assert t[j] == s[j + 1];
        }
      }
      if s[0] != x {
        RemoveFirstNoDup(t, x);
        RemoveFirstMember(t, x, s[0]);
        NoDupCons(s[0], RemoveFirst(t, x));
      }
    }
  }

  /** Putting in front of a duplicate-free sequence an element it does not hold keeps it duplicate-free. */
  lemma NoDupCons<T>(a: T, t: seq<T>)
    requires a !in t && NoDup(t)
    ensures NoDup([a] + t)
  {
    var s := [a] + t;
    forall i, j | 0 <= i < j < |s|
      ensures s[i] != s[j]
    {
      assert s[j] == t[j - 1];
      if i > 0 {
        assert s[i] == t[i - 1];
      }
    }
  }

  /** A sequence has no entries outside excl exactly when Without leaves nothing. */
  lemma WithoutEmpty<T>(s: seq<T>, excl: seq<T>)
    ensures Without(s, excl) == [] <==> forall x :: x in s ==> x in excl
  {
    var r := Without(s, excl);
    forall x | x in s ensures r == [] ==> x in excl {
      WithoutMember(s, excl, x);
    }
    if r != [] {
      WithoutMember(s, excl, r[0]);
    }
  }

  /**
   * Removing, one occurrence at a time, the entries of rm from orig leaves
   * the next entry of rm still present, as long as rm takes no element more
   * often than orig holds it.
   */
  lemma NextStillPresent<T>(live: seq<T>, orig: seq<T>, rm: seq<T>, j: nat)
    requires j < |rm|
    requires multiset(rm) <= multiset(orig)
    requires multiset(live) + multiset(rm[..j]) == multiset(orig)
    ensures rm[j] in live
  {
    var x := rm[j];
    assert rm == rm[..j] + rm[j..];
    assert rm[j..] == [x] + rm[j + 1..];
    assert multiset(rm)[x] == multiset(rm[..j])[x] + multiset(rm[j..])[x];
    assert multiset(rm[j..])[x] >= 1;
    assert multiset(live)[x] == multiset(orig)[x] - multiset(rm[..j])[x];
  }

  /** Growing a prefix by one element adds that element to its multiset. */
  lemma PrefixSnoc<T>(s: seq<T>, j: nat)
    requires j < |s|
    ensures multiset(s[..j + 1]) == multiset(s[..j]) + multiset{s[j]}
    ensures s[..j + 1] == s[..j] + [s[j]]
  {
    assert s[..j + 1] == s[..j] + [s[j]];
  }

  /** Appending one more element of s to a prefix-extended sequence. */
  lemma AppendSnoc<T>(a: seq<T>, s: seq<T>, j: nat)
    requires j < |s|
    ensures a + s[..j + 1] == (a + s[..j]) + [s[j]]
  {
    PrefixSnoc(s, j);
    assert a + (s[..j] + [s[j]]) == (a + s[..j]) + [s[j]];
  }

  /** The prefix of s of its own length is s. */
  lemma PrefixAll<T>(s: seq<T>)
    ensures s[..|s|] == s
  {
  }
}
