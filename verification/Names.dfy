/** The names of caches: composed from the names along a chain of factories, and made into the keys of Redis hashes. */
module Names {
  /** The name that a factory with a prefix gives, to a cache or to a derived factory. */
  function Compose(prefix: string, name: string): string {
    if prefix != "" then prefix + ":" + name else name
  }

  /** The name at the end of a chain of factories that starts without a prefix. */
  function Composed(path: seq<string>): string {
    if path == [] then "" else Compose(Composed(path[..|path| - 1]), path[|path| - 1])
  }

  // ----- what it is, read from the front -----

  function Join(names: seq<string>): string {
    if names == [] then ""
    else if |names| == 1 then names[0]
    else names[0] + ":" + Join(names[1..])
  }

  function WithoutLeadingEmpties(names: seq<string>): (rest: seq<string>)
    ensures rest != [] ==> rest[0] != ""
  {
    if names != [] && names[0] == "" then WithoutLeadingEmpties(names[1..]) else names
  }

  lemma {:induction false} JoinAppend(names: seq<string>, name: string)
    requires names != []
    ensures Join(names + [name]) == Join(names) + ":" + name
  {
    var longer := names + [name];
    assert longer[0] == names[0] && longer[1..] == names[1..] + [name];
    if |names| > 1 {
      JoinAppend(names[1..], name);
      calc {
        Join(longer);
        names[0] + ":" + (Join(names[1..]) + ":" + name);
        names[0] + ":" + Join(names[1..]) + ":" + name;
      }
    } else {
      assert longer[1..] == [name];
    }
  }

  lemma {:induction false} WithoutLeadingEmptiesAppend(names: seq<string>, name: string)
    ensures WithoutLeadingEmpties(names + [name]) ==
            if WithoutLeadingEmpties(names) == [] then (if name == "" then [] else [name])
            else WithoutLeadingEmpties(names) + [name]
  {
    if names == [] {
      assert [name][1..] == [];
    } else if names[0] == "" {
      assert (names + [name])[1..] == names[1..] + [name];
      WithoutLeadingEmptiesAppend(names[1..], name);
    }
  }

  lemma {:induction false} JoinIsEmptyIff(names: seq<string>)
    requires names != [] ==> names[0] != ""
    ensures Join(names) == "" <==> names == []
  {}

  /** A composed name is the names along the chain joined by colons, empty names at its front left out. */
  lemma {:induction false} ComposedIsJoined(path: seq<string>)
    ensures Composed(path) == Join(WithoutLeadingEmpties(path))
  {
    if path != [] {
      var n := |path| - 1;
      var rest := WithoutLeadingEmpties(path[..n]);
      ComposedIsJoined(path[..n]);
      JoinIsEmptyIff(rest);
      assert path == path[..n] + [path[n]];
      WithoutLeadingEmptiesAppend(path[..n], path[n]);
      if rest != [] {
        JoinAppend(rest, path[n]);
      }
    }
  }

  /** One factory gives different names to different names, and each ends with the name asked for. */
  lemma ComposeKeepsNames(prefix: string, a: string, b: string)
    ensures Compose(prefix, a) == Compose(prefix, b) <==> a == b
    ensures |a| <= |Compose(prefix, a)| && Compose(prefix, a)[|Compose(prefix, a)| - |a|..] == a
  {
    if prefix != "" {
      assert Compose(prefix, a)[|prefix| + 1..] == a;
      assert Compose(prefix, b)[|prefix| + 1..] == b;
    }
  }

  // ----- when two chains meet -----

  predicate Plain(names: seq<string>) {
    forall n :: n in names ==> ':' !in n
  }

  /** The first colon ends the first name. */
  lemma FirstColon(x: string, a: string, y: string, b: string)
    requires ':' !in x && ':' !in y && x + ":" + a == y + ":" + b
    ensures x == y && a == b
  {
    var s, t := x + ":" + a, y + ":" + b;
    assert s[|x|] == ':' && t[|y|] == ':';
    assert s[..|x|] == x && t[..|y|] == y;
    assert s[|x| + 1..] == a && t[|y| + 1..] == b;
  }

  lemma {:induction false} ColonMeansMore(names: seq<string>)
    requires Plain(names) && names != []
    ensures ':' in Join(names) <==> |names| > 1
  {
    assert names[0] in names;
    if |names| > 1 {
      assert Join(names)[|names[0]|] == ':';
    }
  }

  lemma {:induction false} JoinIsInjective(a: seq<string>, b: seq<string>)
    requires Plain(a) && Plain(b) && a != [] && b != [] && Join(a) == Join(b)
    ensures a == b
  {
    ColonMeansMore(a);
    ColonMeansMore(b);
    if |a| > 1 {
      FirstColon(a[0], Join(a[1..]), b[0], Join(b[1..]));
      JoinIsInjective(a[1..], b[1..]);
      assert a == [a[0]] + a[1..] && b == [b[0]] + b[1..];
    } else {
      assert a == [a[0]] && b == [b[0]];
    }
  }

  lemma {:induction false} PlainRest(names: seq<string>)
    requires Plain(names)
    ensures Plain(WithoutLeadingEmpties(names))
  {
    if names != [] && names[0] == "" {
      PlainRest(names[1..]);
    }
  }

  /** Without colons in the names, two chains compose to one name only if they differ in empty names at the front. */
  lemma SameNameIff(p: seq<string>, q: seq<string>)
    requires Plain(p) && Plain(q)
    ensures Composed(p) == Composed(q) <==> WithoutLeadingEmpties(p) == WithoutLeadingEmpties(q)
  {
    ComposedIsJoined(p);
    ComposedIsJoined(q);
    PlainRest(p);
    PlainRest(q);
    var a, b := WithoutLeadingEmpties(p), WithoutLeadingEmpties(q);
    JoinIsEmptyIff(a);
    JoinIsEmptyIff(b);
    if Composed(p) == Composed(q) && a != [] {
      JoinIsInjective(a, b);
    }
  }

  /** With a colon they need not differ at all in that way. */
  lemma ColonsCollide()
    ensures Composed(["a:b"]) == Composed(["a", "b"])
    ensures WithoutLeadingEmpties(["a:b"]) != WithoutLeadingEmpties(["a", "b"])
  {
    ComposedIsJoined(["a:b"]);
    ComposedIsJoined(["a", "b"]);
    assert Join(["a", "b"]) == "a" + ":" + Join(["a", "b"][1..]);
  }

  // ----- Redis hashes -----

  /** The key of the hash that a Redis cache with this name, as its prefix, keeps its entries in. */
  function HashKey(name: string): string {
    (if name != "" && name[|name| - 1] != ':' then name + ":" else name) + "cache"
  }

  function WithoutLastEmpty(names: seq<string>): seq<string> {
    if names != [] && names[|names| - 1] == "" then names[..|names| - 1] else names
  }

  lemma LastCharacter(s: string, last: string)
    requires last != "" && ':' !in last
    ensures HashKey(s + last) == s + last + ":" + "cache"
  {
    var name := s + last;
    assert name[|name| - 1] == last[|last| - 1] && last[|last| - 1] in last;
  }

  /** The part of the key before `cache` closes every name with a colon; a last empty name only adds that colon. */
  lemma {:induction false} HashKeyIsClosed(names: seq<string>)
    requires Plain(names) && names != [] && names[0] != ""
    ensures WithoutLastEmpty(names) != []
    ensures HashKey(Join(names)) == Join(WithoutLastEmpty(names)) + ":" + "cache"
  {
    var n := |names| - 1;
    var last := names[n];
    assert names == names[..n] + [last] && last in names;
    if n == 0 {
      assert Join(names) == "" + last;
      LastCharacter("", last);
    } else {
      JoinAppend(names[..n], last);
      var front := Join(names[..n]) + ":";
      assert Join(names) == front + last;
      if last == "" {
        assert front + last == front;
      } else {
        LastCharacter(front, last);
      }
    }
  }

  /**
   Two Redis caches named without colons share a hash if and only if their chains of names differ in nothing but empty
   names at the front and one empty name at the end.
   */
  lemma SameHashIff(p: seq<string>, q: seq<string>)
    requires Plain(p) && Plain(q)
    ensures HashKey(Composed(p)) == HashKey(Composed(q)) <==>
            WithoutLastEmpty(WithoutLeadingEmpties(p)) == WithoutLastEmpty(WithoutLeadingEmpties(q))
  {
    ComposedIsJoined(p);
    ComposedIsJoined(q);
    PlainRest(p);
    PlainRest(q);
    SameHashOfRestIff(WithoutLeadingEmpties(p), WithoutLeadingEmpties(q));
  }

  lemma SameHashOfRestIff(a: seq<string>, b: seq<string>)
    requires Plain(a) && Plain(b) && (a != [] ==> a[0] != "") && (b != [] ==> b[0] != "")
    ensures HashKey(Join(a)) == HashKey(Join(b)) <==> WithoutLastEmpty(a) == WithoutLastEmpty(b)
  {
    if a != [] {
      HashKeyIsClosed(a);
    }
    if b != [] {
      HashKeyIsClosed(b);
    }
    if a != [] && b != [] && HashKey(Join(a)) == HashKey(Join(b)) {
      var x, y := Join(WithoutLastEmpty(a)), Join(WithoutLastEmpty(b));
      assert (x + ":" + "cache")[..|x|] == x && (y + ":" + "cache")[..|y|] == y;
      JoinIsInjective(WithoutLastEmpty(a), WithoutLastEmpty(b));
    }
  }
}
