/** Lexicographic order of strings, as Python sorts them, and the sorted listing of a set. */
module Order {

  predicate Less(a: string, b: string) {
    if b == "" then false
    else if a == "" then true
    else a[0] < b[0] || (a[0] == b[0] && Less(a[1..], b[1..]))
  }

  lemma {:induction false} Trichotomy(a: string, b: string)
    ensures Less(a, b) || a == b || Less(b, a)
    ensures !(Less(a, b) && Less(b, a))
    ensures a == b ==> !Less(a, b)
  {
    if a != "" && b != "" && a[0] == b[0] {
      Trichotomy(a[1..], b[1..]);
      assert a == [a[0]] + a[1..] && b == [b[0]] + b[1..];
    }
  }

  lemma {:induction false} Transitive(a: string, b: string, c: string)
    requires Less(a, b) && Less(b, c)
    ensures Less(a, c)
  {
    if a != "" && a[0] == b[0] && b[0] == c[0] {
      Transitive(a[1..], b[1..], c[1..]);
    }
  }

  predicate StrictlySorted(s: seq<string>) {
    forall i, j | 0 <= i < j < |s| :: Less(s[i], s[j])
  }

  /** `s` lists `names` in ascending order, once each. */
  ghost predicate Lists(s: seq<string>, names: set<string>) {
    StrictlySorted(s) && forall name :: name in s <==> name in names
  }

  ghost predicate IsLeast(least: string, names: set<string>) {
    least in names && forall name | name in names && name != least :: Less(least, name)
  }

  lemma {:induction false} LeastExists(names: set<string>)
    requires names != {}
    ensures exists least :: IsLeast(least, names)
    decreases names
  {
    var pick :| pick in names;
    var rest := names - {pick};
    if rest == {} {
      assert names == {pick};
      assert IsLeast(pick, names);
    } else {
      LeastExists(rest);
      var least :| IsLeast(least, rest);
      Trichotomy(pick, least);
      if Less(pick, least) {
        forall name | name in names && name != pick ensures Less(pick, name) {
          if name != least { Transitive(pick, least, name); }
        }
        assert IsLeast(pick, names);
      } else {
        assert IsLeast(least, names);
      }
    }
  }

  ghost function Sorted(names: set<string>): (r: seq<string>)
    ensures Lists(r, names)
    decreases names
  {
    if names == {} then []
    else
      LeastExists(names);
      var least :| IsLeast(least, names);
      var rest := Sorted(names - {least});
      [least] + rest
  }

  /** A set has one sorted listing. */
  lemma {:induction false} ListingUnique(a: seq<string>, b: seq<string>, names: set<string>)
    requires Lists(a, names) && Lists(b, names)
    ensures a == b
    decreases |a|
  {
    assert a != [] ==> a[0] in names;
    assert b != [] ==> b[0] in names;
    if a != [] {
      HeadIsLeast(a, names);
      HeadIsLeast(b, names);
      Trichotomy(a[0], b[0]);
      TailLists(a, names);
      TailLists(b, names);
      ListingUnique(a[1..], b[1..], names - {a[0]});
    }
  }

  lemma HeadIsLeast(s: seq<string>, names: set<string>)
    requires Lists(s, names) && s != []
    ensures IsLeast(s[0], names)
  {
    assert s[0] in names;
    forall name | name in names && name != s[0] ensures Less(s[0], name) {
      assert name in s;
    }
  }

  lemma TailLists(s: seq<string>, names: set<string>)
    requires Lists(s, names) && s != []
    ensures Lists(s[1..], names - {s[0]})
  {
    forall name ensures name in s[1..] <==> name in names - {s[0]} {
      if name in s[1..] {
        var i :| 0 <= i < |s[1..]| && s[1..][i] == name;
        assert Less(s[0], s[i + 1]);
        Trichotomy(s[0], name);
        assert name in s;
      }
      if name in names - {s[0]} { assert name in s; }
    }
  }

  // ---- `sorted` on a set of strings ----

  function Insert(s: seq<string>, x: string): seq<string> {
    if s == [] then [x]
    else if Less(x, s[0]) then [x] + s
    else if x == s[0] then s
    else [s[0]] + Insert(s[1..], x)
  }

  lemma {:induction false} InsertLists(s: seq<string>, names: set<string>, x: string)
    requires Lists(s, names)
    ensures Lists(Insert(s, x), names + {x})
    decreases |s|
  {
    hide Less;
    var r := Insert(s, x);
    if s == [] {
      assert names == {};
    } else {
      HeadIsLeast(s, names);
      Trichotomy(x, s[0]);
      if Less(x, s[0]) {
        Prepend(x, s, names);
      } else if x == s[0] {
        assert names + {x} == names;
      } else {
        TailLists(s, names);
        InsertLists(s[1..], names - {s[0]}, x);
        Prepend(s[0], Insert(s[1..], x), names - {s[0]} + {x});
        assert names - {s[0]} + {x} + {s[0]} == names + {x};
      }
    }
  }

  /** A string below every name goes in front. */
  lemma Prepend(x: string, s: seq<string>, names: set<string>)
    requires Lists(s, names) && (s != [] ==> Less(x, s[0]))
    ensures Lists([x] + s, names + {x})
  {
    hide Less;
    var r := [x] + s;
    forall i, j | 0 <= i < j < |r| ensures Less(r[i], r[j]) {
      if i == 0 && j > 1 {
        assert Less(s[0], s[j - 1]);
        Transitive(x, s[0], s[j - 1]);
      }
    }
    forall name ensures name in r <==> name in names + {x} {
      assert name in r <==> name == x || name in s;
    }
  }

  method Sort(names: set<string>) returns (sorted: seq<string>)
    ensures Lists(sorted, names)
  {
    sorted := [];
    var rest := names;
    while rest != {}
      invariant rest <= names && Lists(sorted, names - rest)
      decreases |rest|
    {
      var x :| x in rest;
      InsertLists(sorted, names - rest, x);
      sorted := Insert(sorted, x);
      rest := rest - {x};
      assert names - rest == names - (rest + {x}) + {x};
    }
    assert names - rest == names;
  }
}
