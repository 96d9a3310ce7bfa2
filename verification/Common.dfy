/** Shared value types and the ordered-set vocabulary used by several components. */
module Common {

  type Byte = b: int | 0 <= b < 256

  datatype Option<+T> = None | Some(value: T)
  {
    function Or(default: T): T {
      if Some? then value else default
    }
  }

  datatype Result<+T, +E> = Ok(value: T) | Err(error: E)

  /** Members of `s` strictly above `h`. */
  ghost function Above(s: set<int>, h: int): set<int> {
    set k | k in s && k > h
  }

  /** An arbitrary member. */
  ghost function Pick<T>(s: set<T>): (x: T)
    requires s != {}
    ensures x in s
  {
    var x :| x in s;
    x
  }

  lemma {:induction false} GreatestExists(s: set<int>)
    requires s != {}
    ensures exists m :: m in s && forall x :: x in s ==> x <= m
    decreases |s|
  {
    var k := Pick(s);
    if s != {k} {
      var rest := s - {k};
      GreatestExists(rest);
      var m :| m in rest && forall x :: x in rest ==> x <= m;
      assert forall x :: x in s ==> x == k || x in rest;
      assert (if k > m then k else m) in s;
    }
  }

  ghost function Greatest(s: set<int>): (m: int)
    requires s != {}
    ensures m in s && forall x :: x in s ==> x <= m
  {
    GreatestExists(s);
    var m :| m in s && forall x :: x in s ==> x <= m;
    m
  }

  /** The members of `s` in decreasing order. */
  ghost function Descending(s: set<int>): (d: seq<int>)
    ensures |d| == |s|
    ensures forall i :: 0 <= i < |d| ==> d[i] in s
    ensures forall i, j :: 0 <= i < j < |d| ==> d[i] > d[j]
    decreases |s|
  {
    if s == {} then [] else
      var m := Greatest(s);
      [m] + Descending(s - {m})
  }

  /** The `n` greatest members of `s`, greatest first. */
  ghost function Newest(s: set<int>, n: nat): (d: seq<int>)
    ensures |d| == if |s| < n then |s| else n
    ensures forall i :: 0 <= i < |d| ==> d[i] in s
    ensures forall i, j :: 0 <= i < j < |d| ==> d[i] > d[j]
  {
    var d := Descending(s);
    if |d| <= n then d else d[..n]
  }

  /** Being among the newest `n` means having fewer than `n` members above. */
  lemma {:induction false} NewestIffFewAbove(s: set<int>, n: nat, h: int)
    requires h in s
    ensures h in Newest(s, n) <==> |Above(s, h)| < n
    decreases |s|
  {
    var m := Greatest(s);
    var rest := s - {m};
    var d := Descending(s);
    assert d == [m] + Descending(rest);
    if h == m {
      assert Above(s, h) == {};
      if n > 0 { assert Newest(s, n)[0] == m; } else { assert Newest(s, n) == []; }
    } else if n == 0 {
      assert Newest(s, n) == [];
    } else {
      assert Above(s, h) == Above(rest, h) + {m};
      NewestIffFewAbove(rest, n - 1, h);
      assert Newest(s, n) == [m] + Newest(rest, n - 1);
    }
  }

  /** A new greatest member goes in front and pushes the last one out. */
  lemma NewestAddGreatest(s: set<int>, n: nat, h: int)
    requires n > 0 && forall x :: x in s ==> x < h
    ensures Newest(s + {h}, n) == [h] + Newest(s, n - 1)
  {
  }

  // ---- sequences with entries left out

  /** `a` is `b` with some entries left out. */
  ghost predicate Subsequence<T>(a: seq<T>, b: seq<T>) {
    if b == [] then a == [] else
      || Subsequence(a, b[..|b| - 1])
      || (a != [] && a[|a| - 1] == b[|b| - 1] && Subsequence(a[..|a| - 1], b[..|b| - 1]))
  }

  lemma SubsequenceGrows<T>(a: seq<T>, b: seq<T>, x: T)
    requires Subsequence(a, b)
    ensures Subsequence(a, b + [x]) && Subsequence(a + [x], b + [x])
  {
    assert (b + [x])[..|b|] == b && (a + [x])[..|a|] == a;
  }
}
