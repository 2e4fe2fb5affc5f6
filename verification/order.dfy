/** The order in which the tooling lists locales and keys.

    Rust compares `String`s byte by byte. UTF-8 preserves the order of code
    points, so comparing the characters of two strings lexicographically gives
    the same answer as comparing their UTF-8 bytes. */
module StringOrder {

  /** `a` sorts no later than `b`. */
  predicate Below(a: string, b: string)
    decreases |a|
  {
    a == [] || (b != [] && (a[0] < b[0] || (a[0] == b[0] && Below(a[1..], b[1..]))))
  }

  lemma BelowReflexive(a: string)
    ensures Below(a, a)
  {
  }

  lemma BelowAntisymmetric(a: string, b: string)
    requires Below(a, b) && Below(b, a)
    ensures a == b
  {
    if a != [] {
      BelowAntisymmetric(a[1..], b[1..]);
      assert a == [a[0]] + a[1..];
      assert b == [b[0]] + b[1..];
    }
  }

  lemma BelowTransitive(a: string, b: string, c: string)
    requires Below(a, b) && Below(b, c)
    ensures Below(a, c)
  {
    if a != [] && b != [] && c != [] && a[0] == b[0] == c[0] {
      BelowTransitive(a[1..], b[1..], c[1..]);
    }
  }

  lemma BelowTotal(a: string, b: string)
    ensures Below(a, b) || Below(b, a)
  {
    if a != [] && b != [] && a[0] == b[0] {
      BelowTotal(a[1..], b[1..]);
    }
  }

  /** `x` comes strictly before `y` in ascending order, or in descending order
      when `reverse` is set. */
  predicate Precedes(x: string, y: string, reverse: bool) {
    x != y && if reverse then Below(y, x) else Below(x, y)
  }

  /** Strictly increasing (or strictly decreasing when `reverse`): in
      particular no element occurs twice. */
  predicate Ordered(s: seq<string>, reverse: bool) {
    forall i, j :: 0 <= i < j < |s| ==> Precedes(s[i], s[j], reverse)
  }

  predicate IsLeast(m: string, s: set<string>) {
    m in s && forall y :: y in s ==> Below(m, y)
  }

  lemma LeastExists(s: set<string>)
    requires s != {}
    ensures exists m :: IsLeast(m, s)
    decreases |s|
  {
    var x :| x in s;
    if s != {x} {
      LeastExists(s - {x});
      var m :| IsLeast(m, s - {x});
      BelowTotal(x, m);
      if Below(x, m) {
        forall y | y in s
          ensures Below(x, y)
        {
          if y == x { BelowReflexive(x); } else { BelowTransitive(x, m, y); }
        }
        assert IsLeast(x, s);
      } else {
        assert IsLeast(m, s);
      }
    } else {
      BelowReflexive(x);
      assert IsLeast(x, s);
    }
  }

  lemma LeastUnique(s: set<string>)
    ensures forall m, m' :: IsLeast(m, s) && IsLeast(m', s) ==> m == m'
  {
    forall m, m' | IsLeast(m, s) && IsLeast(m', s)
      ensures m == m'
    {
      BelowAntisymmetric(m, m');
    }
  }

  /** The elements of `s` in ascending order: what collecting a hash set into a
      vector and calling `sort` yields, whatever the set's iteration order. */
  function Sorted(s: set<string>): (r: seq<string>)
    ensures |r| == |s|
    ensures forall x :: x in r <==> x in s
    ensures Ordered(r, false)
    decreases |s|
  {
    if s == {} then []
    else
      LeastExists(s);
      LeastUnique(s);
      var m :| IsLeast(m, s);
      var rest := Sorted(s - {m});
      assert forall j :: 0 <= j < |rest| ==> Precedes(m, rest[j], false) by {
        forall j | 0 <= j < |rest| ensures Precedes(m, rest[j], false) {
          assert rest[j] in rest;
        }
      }
      [m] + rest
  }

  function Reverse(s: seq<string>): (r: seq<string>)
    ensures |r| == |s|
    ensures forall i :: 0 <= i < |s| ==> r[i] == s[|s| - 1 - i]
  {
    seq(|s|, i requires 0 <= i < |s| => s[|s| - 1 - i])
  }

  /** The elements of `s` sorted, then reversed when `reverse` is set. */
  function OrderedElements(s: set<string>, reverse: bool): (r: seq<string>)
    ensures |r| == |s|
    ensures forall x :: x in r <==> x in s
    ensures Ordered(r, reverse)
  {
    var up := Sorted(s);
    if reverse then
      var r := Reverse(up);
      assert forall x :: x in r <==> x in up by {
        forall x | x in up ensures x in r {
          var i :| 0 <= i < |up| && up[i] == x;
          assert r[|up| - 1 - i] == x;
        }
      }
      r
    else up
  }

  /** An ordered sequence is determined by its elements. */
  lemma {:induction false} OrderedUnique(a: seq<string>, b: seq<string>, reverse: bool)
    requires Ordered(a, reverse) && Ordered(b, reverse)
    requires forall x :: x in a <==> x in b
    ensures a == b
    decreases |a|
  {
    if a == [] {
      assert forall i :: 0 <= i < |b| ==> b[i] in b;
    } else {
      assert a[0] in b;
      assert b != [];
      assert b[0] in a;
      if a[0] != b[0] {
        var i :| 0 <= i < |a| && a[i] == b[0];
        var j :| 0 <= j < |b| && b[j] == a[0];
        assert i > 0 && j > 0;
        assert Precedes(a[0], b[0], reverse);
        assert Precedes(b[0], a[0], reverse);
        BelowAntisymmetric(a[0], b[0]);
        assert false;
      }
      forall x ensures x in a[1..] <==> x in b[1..] {
        if x in a[1..] {
          var i :| 1 <= i < |a| && a[i] == x;
          assert x in b && x != b[0];
          var j :| 0 <= j < |b| && b[j] == x;
          assert b[1..][j - 1] == x;
        }
        if x in b[1..] {
          var j :| 1 <= j < |b| && b[j] == x;
          assert x in a && x != a[0];
          var i :| 0 <= i < |a| && a[i] == x;
          assert a[1..][i - 1] == x;
        }
      }
      OrderedUnique(a[1..], b[1..], reverse);
      assert a == [a[0]] + a[1..];
      assert b == [b[0]] + b[1..];
    }
  }

  /** An element before everything in an ordered sequence extends it. */
  lemma OrderedCons(x: string, s: seq<string>, reverse: bool)
    requires Ordered(s, reverse)
    requires forall j :: 0 <= j < |s| ==> Precedes(x, s[j], reverse)
    ensures Ordered([x] + s, reverse)
  {
    var r := [x] + s;
    forall i, j | 0 <= i < j < |r| ensures Precedes(r[i], r[j], reverse) {
      assert r[j] == s[j - 1];
      if i > 0 {
        assert r[i] == s[i - 1];
      }
    }
  }

  lemma OrderedTail(s: seq<string>, reverse: bool)
    requires Ordered(s, reverse) && s != []
    ensures Ordered(s[1..], reverse)
    ensures forall j :: 0 <= j < |s[1..]| ==> Precedes(s[0], s[1..][j], reverse)
  {
    forall i, j | 0 <= i < j < |s[1..]| ensures Precedes(s[1..][i], s[1..][j], reverse) {
      assert s[1..][i] == s[i + 1] && s[1..][j] == s[j + 1];
    }
  }
}
