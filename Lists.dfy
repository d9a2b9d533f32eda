/** Id lists shared by both registries: the `std::list` of recycled ids that
    EntitySystem and ComponentSystem each keep, and the search-and-erase loop
    that both run over it. */
module Lists {

  datatype Option<+T> = None | Some(value: T)

  /** No id occurs twice. */
  predicate NoDup(s: seq<nat>) {
    forall i, j :: 0 <= i < j < |s| ==> s[i] != s[j]
  }

  /** The ids lo, lo + 1, ..., hi - 1, in ascending order. */
  function Range(lo: nat, hi: nat): (r: seq<nat>)
    ensures |r| == if lo < hi then hi - lo else 0
    ensures forall k :: 0 <= k < |r| ==> r[k] == lo + k
    decreases hi
  {
    if lo < hi then Range(lo, hi - 1) + [hi - 1] else []
  }

  /** `std::list::erase` of the first element equal to x; the list is unchanged when x is absent. */
  function RemoveFirst(s: seq<nat>, x: nat): (r: seq<nat>)
    ensures forall y :: y in r ==> y in s
    ensures |r| == if x in s then |s| - 1 else |s|
  {
    if s == [] then []
    else if s[0] == x then s[1..]
    else [s[0]] + RemoveFirst(s[1..], x)
  }

  /** Position of the first occurrence of x. */
  function IndexOf(s: seq<nat>, x: nat): (i: nat)
    requires x in s
    ensures i < |s| && s[i] == x && x !in s[..i]
  {
    if s[0] == x then 0
    else
      assert x in s[1..];
      var k := IndexOf(s[1..], x);
      assert s[..k + 1] == [s[0]] + s[1..][..k];
      k + 1
  }

  /** Any position holding the first occurrence of x is IndexOf's answer. */
  lemma IndexOfUnique(s: seq<nat>, x: nat, i: nat)
    requires i < |s| && s[i] == x && x !in s[..i]
    ensures IndexOf(s, x) == i
  {
    var j := IndexOf(s, x);
    forall m | 0 <= m < i ensures s[m] != x {
      assert s[..i][m] == s[m];
    }
    forall m | 0 <= m < j ensures s[m] != x {
      assert s[..j][m] == s[m];
    }
  }

  /** RemoveFirst cuts out exactly the first occurrence of x and keeps the order of the rest. */
  lemma {:induction false} RemoveFirstAt(s: seq<nat>, x: nat, i: nat)
    requires i < |s| && s[i] == x && x !in s[..i]
    ensures RemoveFirst(s, x) == s[..i] + s[i + 1..]
  {
    if i > 0 {
      assert s[..i][0] == s[0];
      var t := s[1..];
      assert t[..i - 1] == s[..i][1..];
      RemoveFirstAt(t, x, i - 1);
      assert s[..i] == [s[0]] + t[..i - 1];
      assert s[i + 1..] == t[i..];
    }
  }

  /** RemoveFirst leaves a list without x unchanged. */
  lemma {:induction false} RemoveFirstAbsent(s: seq<nat>, x: nat)
    requires x !in s
    ensures RemoveFirst(s, x) == s
  {
    if s != [] {
      assert x !in s[1..] by {
        forall y | y in s[1..] ensures y in s {
          var k :| 0 <= k < |s[1..]| && s[1..][k] == y;
          assert s[k + 1] == y;
        }
      }
      RemoveFirstAbsent(s[1..], x);
      assert s == [s[0]] + s[1..];
    }
  }

  /** On a list without repetitions, RemoveFirst removes x and nothing else, and the result is still
      without repetitions and one shorter when x was present. */
  lemma {:induction false} RemoveFirstMembers(s: seq<nat>, x: nat)
    requires NoDup(s)
    ensures NoDup(RemoveFirst(s, x))
    ensures forall y :: y in RemoveFirst(s, x) <==> y in s && y != x
    ensures |RemoveFirst(s, x)| == if x in s then |s| - 1 else |s|
  {
    if s != [] && s[0] != x {
      assert NoDup(s[1..]) by {
        forall i, j | 0 <= i < j < |s[1..]| ensures s[1..][i] != s[1..][j] {
          assert s[1..][i] == s[i + 1] && s[1..][j] == s[j + 1];
        }
      }
      RemoveFirstMembers(s[1..], x);
      assert s[0] !in s[1..] by {
        forall k | 0 <= k < |s[1..]| ensures s[1..][k] != s[0] {
          assert s[1..][k] == s[k + 1];
        }
      }
      var r := RemoveFirst(s, x);
      assert r == [s[0]] + RemoveFirst(s[1..], x);
      forall i, j | 0 <= i < j < |r| ensures r[i] != r[j] {
        if i == 0 {
          assert r[j] in RemoveFirst(s[1..], x);
        } else {
          assert r[i] == RemoveFirst(s[1..], x)[i - 1];
        }
      }
      assert s == [s[0]] + s[1..];
    } else if s != [] {
      assert s == [s[0]] + s[1..];
      forall i, j | 0 <= i < j < |s[1..]| ensures s[1..][i] != s[1..][j] {
        assert s[1..][i] == s[i + 1] && s[1..][j] == s[j + 1];
      }
      forall y | y in s[1..] ensures y != x {
        var k :| 0 <= k < |s[1..]| && s[1..][k] == y;
        assert s[k + 1] == y;
      }
    }
  }

  /** The iterator walk over a recycled-id list that stops at the first element equal to x and erases
      it (ComponentSystem.h:93-101, 147-155, 750-756). */
  method EraseFirst(s: seq<nat>, x: nat) returns (r: seq<nat>, found: bool)
    ensures found <==> x in s
    ensures r == RemoveFirst(s, x)
  {
    var i := 0;
    while i < |s|
      invariant 0 <= i <= |s|
      invariant x !in s[..i]
    {
      if s[i] == x {
        RemoveFirstAt(s, x, i);
        return s[..i] + s[i + 1..], true;
      }
      assert s[..i + 1] == s[..i] + [s[i]];
      i := i + 1;
    }
    assert s[..i] == s;
    RemoveFirstAbsent(s, x);
    return s, false;
  }

  /** A list of distinct ids drawn from lo .. hi - 1 has at most hi - lo elements. */
  lemma {:induction false} NoDupBound(s: seq<nat>, lo: nat, hi: nat)
    requires lo <= hi && NoDup(s)
    requires forall k :: k in s ==> lo <= k < hi
    ensures |s| <= hi - lo
    decreases hi
  {
    assert s == [] || s[0] in s;
    if hi > lo {
      RemoveFirstMembers(s, hi - 1);
      NoDupBound(RemoveFirst(s, hi - 1), lo, hi - 1);
    }
  }
}
