/** Sorted lists of distinct names. */
module Names {

  /** The order in which names sort. */
  predicate Before(a: string, b: string)
    decreases |a|
  {
    b != [] && (a == [] || a[0] < b[0] || (a[0] == b[0] && Before(a[1..], b[1..])))
  }

  lemma {:induction false} Irreflexive(a: string)
    ensures !Before(a, a)
    decreases |a|
  {
    if a != [] {
      Irreflexive(a[1..]);
    }
  }

  lemma {:induction false} Transitive(a: string, b: string, c: string)
    requires Before(a, b) && Before(b, c)
    ensures Before(a, c)
    decreases |a|
  {
    if a != [] && a[0] == b[0] && b[0] == c[0] {
      Transitive(a[1..], b[1..], c[1..]);
    }
  }

  lemma {:induction false} Total(a: string, b: string)
    requires a != b
    ensures Before(a, b) || Before(b, a)
    decreases |a|
  {
    if a != [] && b != [] && a[0] == b[0] {
      assert a == [a[0]] + a[1..] && b == [b[0]] + b[1..];
      Total(a[1..], b[1..]);
    }
  }

  predicate Increasing(s: seq<string>) {
    forall i, j :: 0 <= i < j < |s| ==> Before(s[i], s[j])
  }

  function Elements(s: seq<string>): set<string> {
    set x | x in s
  }

  /** x in its place in a sorted list. */
  function Insert(s: seq<string>, x: string): (r: seq<string>)
    requires Increasing(s) && x !in s
    ensures Increasing(r) && Elements(r) == Elements(s) + {x}
  {
    if s == [] then [x]
    else if Before(x, s[0]) then
      assert forall j :: 0 <= j < |s| ==> Before(x, s[j]) by {
        forall j | 1 <= j < |s| ensures Before(x, s[j]) { Transitive(x, s[0], s[j]); }
      }
      [x] + s
    else
      var r := Insert(s[1..], x);
      assert forall j :: 0 <= j < |r| ==> Before(s[0], r[j]) by {
        Total(x, s[0]);
        assert forall j :: 0 <= j < |r| ==> r[j] in Elements(r);
      }
      assert s == [s[0]] + s[1..];
      [s[0]] + r
  }

  /** The sorted list of a set of names. */
  ghost function Listed(keys: set<string>): (r: seq<string>)
    ensures Increasing(r) && Elements(r) == keys
  {
    if keys == {} then []
    else
      var k :| k in keys;
      Insert(Listed(keys - {k}), k)
  }

  /** A set has only one sorted list. */
  lemma {:induction false} SortedIsUnique(s: seq<string>, t: seq<string>)
    requires Increasing(s) && Increasing(t) && Elements(s) == Elements(t)
    ensures s == t
    decreases |s|
  {
    if s == [] {
      if t != [] {
        Nonempty(t);
        assert false;
      }
    } else {
      assert s[0] in Elements(s);
      FirstIsLeast(s, t);
      FirstIsLeast(t, s);
      if Before(s[0], t[0]) {
        Transitive(s[0], t[0], s[0]);
        Irreflexive(s[0]);
      }
      assert s[0] == t[0];
      assert Elements(s[1..]) == Elements(s) - {s[0]} by { TailElements(s); }
      assert Elements(t[1..]) == Elements(t) - {t[0]} by { TailElements(t); }
      SortedIsUnique(s[1..], t[1..]);
      assert s == [s[0]] + s[1..] && t == [t[0]] + t[1..];
    }
  }

  lemma Nonempty(s: seq<string>)
    requires s != []
    ensures Elements(s) != {}
  {
    assert s[0] in Elements(s);
  }

  lemma FirstIsLeast(s: seq<string>, t: seq<string>)
    requires Increasing(s) && Elements(s) == Elements(t) && s != []
    ensures t != [] && (t[0] == s[0] || Before(s[0], t[0]))
  {
    assert s[0] in Elements(s);
    assert t[0] in Elements(t);
    var i :| 0 <= i < |s| && s[i] == t[0];
  }

  lemma TailElements(s: seq<string>)
    requires Increasing(s) && s != []
    ensures Elements(s[1..]) == Elements(s) - {s[0]}
  {
    assert s == [s[0]] + s[1..];
    forall j | 1 <= j < |s|
      ensures s[j] != s[0]
    {
      Irreflexive(s[0]);
    }
  }

  method Sort(names: seq<string>) returns (sorted: seq<string>)
    requires forall i, j :: 0 <= i < j < |names| ==> names[i] != names[j]
    ensures sorted == Listed(Elements(names))
  {
    sorted := [];
    for i := 0 to |names|
      invariant Increasing(sorted) && Elements(sorted) == Elements(names[..i])
    {
      assert names[..i + 1] == names[..i] + [names[i]];
      assert names[i] !in Elements(names[..i]);
      sorted := Insert(sorted, names[i]);
    }
    assert names[..|names|] == names;
    SortedIsUnique(sorted, Listed(Elements(names)));
  }

  /** The first place of a name in a list. */
  function IndexOf(s: seq<string>, x: string): (i: nat)
    requires x in s
    ensures i < |s| && s[i] == x && x !in s[..i]
  {
    if s[0] == x then 0
    else
      assert s == [s[0]] + s[1..];
      var i := IndexOf(s[1..], x);
      assert s[..i + 1] == [s[0]] + s[1..][..i];
      i + 1
  }

  /** Names sort like a dictionary: by the first character that differs, a name before its extensions. */
  lemma {:induction false} BeforeIff(a: string, b: string)
    ensures Before(a, b) <==> a < b || exists i: nat :: Decides(a, b, i)
    decreases |a|
  {
    if a != [] && b != [] {
      assert a == [a[0]] + a[1..] && b == [b[0]] + b[1..];
      if a[0] == b[0] {
        BeforeIff(a[1..], b[1..]);
        assert a < b <==> a[1..] < b[1..];
        forall i: nat
          ensures Decides(a[1..], b[1..], i) <==> Decides(a, b, i + 1)
        {
          DecidesLater(a, b, i);
        }
        forall i: nat | Decides(a, b, i)
          ensures i > 0 && Decides(a[1..], b[1..], i - 1)
        {
          DecidesLater(a, b, i - 1);
        }
      } else {
        assert a[0] < b[0] ==> Decides(a, b, 0);
        forall i: nat | Decides(a, b, i)
          ensures a[0] < b[0]
        {
          assert i > 0 ==> a[..i][0] == b[..i][0];
        }
      }
    }
  }

  predicate Decides(a: string, b: string, i: nat) {
    i < |a| && i < |b| && a[..i] == b[..i] && a[i] < b[i]
  }

  lemma DecidesLater(a: string, b: string, i: nat)
    requires a != [] && b != [] && a[0] == b[0]
    ensures Decides(a[1..], b[1..], i) <==> Decides(a, b, i + 1)
  {
    if i + 1 < |a| && i + 1 < |b| {
      assert a[..i + 1] == [a[0]] + a[1..][..i] && b[..i + 1] == [b[0]] + b[1..][..i];
      assert a[1..][..i] == a[..i + 1][1..] && b[1..][..i] == b[..i + 1][1..];
    }
  }
}
