/**
 * nanorc/expand.py: a preprocessor for nanorc files.  It inlines
 * `#include FILE` lines, collects `#define NAME VALUE` lines into an ordered
 * dictionary, expands `%NAME%` references inside the definitions (writing
 * each expansion back into the dictionary), and finally replaces the
 * references left in the text.
 *
 * Files are a map from name to contents; Python's `sys.exit(1)` after an
 * error message is an `Err` result carrying what the message reports.
 */
module NanorcExpand {

  import opened Io

  datatype Result<T> = Ok(value: T) | Err(error: Error)

  /** The conditions the script reports before exiting with status 1. */
  datatype Error =
    | IncludeCycle(chain: seq<string>)
    | MissingFile(name: string)
    | Undefined(name: string)
    | DefineCycle(chain: seq<string>)

  /** The elements of a chain of names. */
  function Elems(s: seq<string>): set<string>
  {
    set x | x in s
  }

  /** Adding a name that is not yet on the chain leaves one name fewer outside it. */
  lemma RankDrops(keys: set<string>, chain: seq<string>, name: string)
    requires name in keys && name !in chain
    ensures |keys - Elems(chain + [name])| < |keys - Elems(chain)|
  {
    assert keys - Elems(chain) == (keys - Elems(chain + [name])) + {name};
  }

  /*
   * The `%(\w+)%` scan
   */

  /** Python's `\w` on a byte string: an ASCII letter, digit or underscore. */
  predicate IsWord(c: char)
  {
    ('a' <= c <= 'z') || ('A' <= c <= 'Z') || ('0' <= c <= '9') || c == '_'
  }

  /** Every character is a word character. */
  predicate AllWord(s: string)
  {
    forall i :: 0 <= i < |s| ==> IsWord(s[i])
  }

  /** A name `%(\w+)%` can refer to: one or more word characters. */
  predicate IsName(s: string)
  {
    s != [] && AllWord(s)
  }

  /** The length of the longest run of word characters at the front of `s`. */
  function WordRun(s: string): (n: nat)
    ensures n <= |s| && AllWord(s[..n])
    ensures n < |s| ==> !IsWord(s[n])
  {
    if s != [] && IsWord(s[0]) then
      var r := 1 + WordRun(s[1..]);
      assert s[..r] == [s[0]] + s[1..][..r - 1];
      r
    else 0
  }

  /**
   * The name of the `%NAME%` reference at the front of `s`, if there is
   * one: '%', a maximal non-empty run of word characters, then '%'.
   */
  function RefAt(s: string): (r: Option<string>)
    ensures r.Some? ==> |r.value| + 2 <= |s| && s == "%" + r.value + "%" + s[|r.value| + 2..]
  {
    if s == [] || s[0] != '%' then None
    else
      var n := WordRun(s[1..]);
      if n > 0 && 1 + n < |s| && s[1 + n] == '%' then Some(s[1..1 + n]) else None
  }

  /** A piece of scanned text: a character kept as it is, or a reference. */
  datatype Token = Lit(c: char) | Ref(name: string)

  /**
   * re.sub's left-to-right search for `%(\w+)%`: a reference is taken
   * where one starts, and the search goes on after it; elsewhere one
   * character is kept and the search moves on by one.
   */
  function Scan(s: string): seq<Token>
    decreases |s|
  {
    if s == [] then []
    else
      match RefAt(s)
      case Some(name) => [Ref(name)] + Scan(s[|name| + 2..])
      case None => [Lit(s[0])] + Scan(s[1..])
  }

  /** The text of the tokens: a reference is written back as `%NAME%`. */
  function Render(ts: seq<Token>): string
  {
    if ts == [] then []
    else
      (match ts[0] case Lit(c) => [c] case Ref(name) => "%" + name + "%") + Render(ts[1..])
  }

  /** The scan loses no character and invents none. */
  lemma {:induction false} ScanRender(s: string)
    decreases |s|
    ensures Render(Scan(s)) == s
  {
    if s != [] {
      match RefAt(s)
      case Some(name) =>
        var rest := s[|name| + 2..];
        ScanRender(rest);
        var ts := [Ref(name)] + Scan(rest);
        assert ts[1..] == Scan(rest);
        assert Render(ts) == ("%" + name + "%") + Render(Scan(rest));
      case None =>
        var ts := [Lit(s[0])] + Scan(s[1..]);
        ScanRender(s[1..]);
        assert ts[1..] == Scan(s[1..]);
        assert s == [s[0]] + s[1..];
    }
  }

  /** The characters kept as they are, in order. */
  function Literals(ts: seq<Token>): string
  {
    if ts == [] then [] else (if ts[0].Lit? then [ts[0].c] else []) + Literals(ts[1..])
  }

  /** Text without '%' holds no reference: it scans to its own characters. */
  lemma {:induction false} ScanPlain(s: string)
    requires '%' !in s
    decreases |s|
    ensures forall i :: 0 <= i < |Scan(s)| ==> Scan(s)[i].Lit?
    ensures Literals(Scan(s)) == s
  {
    if s != [] {
      assert s[0] != '%';
      assert s == [s[0]] + s[1..];
      ScanPlain(s[1..]);
    }
  }

  /*
   * expand
   */

  /** The outcome of an expansion, and the definitions as it leaves them. */
  datatype Expansion = Expansion(result: Result<string>, defs: map<string, string>)

  /**
   * expand(name, parents): the value of `name` with each `%CHILD%`
   * replaced by expand(CHILD, parents + [name]); the result is written
   * back into the definitions and returned.
   */
  function ExpandName(d: map<string, string>, name: string, parents: seq<string>): (e: Expansion)
    requires name in d && name !in parents && Elems(parents) <= d.Keys
    ensures e.defs.Keys == d.Keys
    ensures e.result.Ok? ==> e.defs[name] == e.result.value
    decreases |d.Keys - Elems(parents)|, 0, 0
  {
    RankDrops(d.Keys, parents, name);
    var e := ExpandTokens(d, Scan(d[name]), parents + [name], []);
    if e.result.Err? then e else Expansion(e.result, e.defs[name := e.result.value])
  }

  /**
   * The re.sub inside expand, after it produced `acc`: each reference
   * must name a definition, must not be on the chain, and is replaced
   * by its own expansion.
   */
  function ExpandTokens(d: map<string, string>, ts: seq<Token>, chain: seq<string>, acc: string): (e: Expansion)
    requires Elems(chain) <= d.Keys
    ensures e.defs.Keys == d.Keys
    decreases |d.Keys - Elems(chain)|, 1, |ts|
  {
    if ts == [] then Expansion(Ok(acc), d)
    else
      match ts[0]
      case Lit(c) => ExpandTokens(d, ts[1..], chain, acc + [c])
      case Ref(child) =>
        if child !in d then Expansion(Err(Undefined(child)), d)
        else if child in chain then Expansion(Err(DefineCycle(chain + [child])), d)
        else
          var e := ExpandName(d, child, chain);
          if e.result.Err? then e
          else ExpandTokens(e.defs, ts[1..], chain, acc + e.result.value)
  }

  /**
   * The expansion as a plain recursive substitution, without writing
   * anything back: the reference the memoised expand is compared with.
   */
  function Resolve(d: map<string, string>, name: string, parents: seq<string>): Result<string>
    requires name in d && name !in parents && Elems(parents) <= d.Keys
    decreases |d.Keys - Elems(parents)|, 0, 0
  {
    RankDrops(d.Keys, parents, name);
    ResolveTokens(d, Scan(d[name]), parents + [name])
  }

  function ResolveTokens(d: map<string, string>, ts: seq<Token>, chain: seq<string>): Result<string>
    requires Elems(chain) <= d.Keys
    decreases |d.Keys - Elems(chain)|, 1, |ts|
  {
    if ts == [] then Ok([])
    else
      var head: Result<string> :=
        match ts[0]
        case Lit(c) => Ok([c])
        case Ref(child) =>
          if child !in d then Err(Undefined(child))
          else if child in chain then Err(DefineCycle(chain + [child]))
          else Resolve(d, child, chain);
      if head.Err? then head
      else
        match ResolveTokens(d, ts[1..], chain)
        case Err(e) => Err(e)
        case Ok(tail) => Ok(head.value + tail)
  }

  /** No definition holds a '%' that is not part of a reference. */
  ghost predicate Clean(d: map<string, string>)
  {
    forall k :: k in d ==> '%' !in Literals(Scan(d[k]))
  }

  /** A successful expansion of clean definitions holds no '%'. */
  lemma {:induction false} ResolvePlain(d: map<string, string>, name: string, parents: seq<string>)
    requires name in d && name !in parents && Elems(parents) <= d.Keys
    requires Clean(d) && Resolve(d, name, parents).Ok?
    decreases |d.Keys - Elems(parents)|, 0, 0
    ensures '%' !in Resolve(d, name, parents).value
  {
    RankDrops(d.Keys, parents, name);
    ResolveTokensPlain(d, Scan(d[name]), parents + [name]);
  }

  lemma {:induction false} ResolveTokensPlain(d: map<string, string>, ts: seq<Token>, chain: seq<string>)
    requires Elems(chain) <= d.Keys
    requires Clean(d) && '%' !in Literals(ts) && ResolveTokens(d, ts, chain).Ok?
    decreases |d.Keys - Elems(chain)|, 1, |ts|
    ensures '%' !in ResolveTokens(d, ts, chain).value
  {
    if ts != [] {
      ResolveTokensPlain(d, ts[1..], chain);
      match ts[0]
      case Lit(c) =>
      case Ref(child) =>
        ResolvePlain(d, child, chain);
    }
  }

  /**
   * A successful expansion does not depend on the chain it was reached
   * through: with fewer names forbidden it succeeds with the same value.
   */
  lemma {:induction false} ResolveAnyChain(d: map<string, string>, name: string, p: seq<string>, q: seq<string>)
    requires name in d && name !in p && Elems(p) <= d.Keys && Elems(q) <= Elems(p)
    requires Resolve(d, name, p).Ok?
    decreases |d.Keys - Elems(p)|, 0, 0
    ensures name !in q && Resolve(d, name, q) == Resolve(d, name, p)
  {
    RankDrops(d.Keys, p, name);
    assert name !in Elems(q);
    forall x | x in Elems(q + [name])
      ensures x in Elems(p + [name])
    {
      if x != name {
        assert x in Elems(q);
      }
    }
    ResolveTokensAnyChain(d, Scan(d[name]), p + [name], q + [name]);
  }

  lemma {:induction false} ResolveTokensAnyChain(d: map<string, string>, ts: seq<Token>, p: seq<string>, q: seq<string>)
    requires Elems(p) <= d.Keys && Elems(q) <= Elems(p)
    requires ResolveTokens(d, ts, p).Ok?
    decreases |d.Keys - Elems(p)|, 1, |ts|
    ensures ResolveTokens(d, ts, q) == ResolveTokens(d, ts, p)
  {
    if ts != [] {
      ResolveTokensAnyChain(d, ts[1..], p, q);
      match ts[0]
      case Lit(c) =>
      case Ref(child) =>
        ResolveAnyChain(d, child, p, q);
    }
  }

  /**
   * `v` is the final value of `k`: what expanding it from the start gives,
   * without a '%' left in it.
   */
  ghost predicate Final(d0: map<string, string>, k: string, v: string)
  {
    && k in d0 && '%' !in v && Resolve(d0, k, []) == Ok(v)
  }

  /** Every entry still holds its original value or its final one. */
  ghost predicate Memo(d0: map<string, string>, d: map<string, string>)
  {
    && d.Keys == d0.Keys
    && forall k :: k in d ==> d[k] == d0[k] || Final(d0, k, d[k])
  }

  /** Every entry is unchanged or now holds its final value. */
  ghost predicate Settles(d0: map<string, string>, d: map<string, string>, d': map<string, string>)
  {
    && d'.Keys == d.Keys
    && forall k :: k in d' ==> d'[k] == d[k] || Final(d0, k, d'[k])
  }

  /** Scanning text without references copies it and writes nothing back. */
  lemma {:induction false} ExpandLiterals(d: map<string, string>, ts: seq<Token>, chain: seq<string>, acc: string)
    requires Elems(chain) <= d.Keys
    requires forall i :: 0 <= i < |ts| ==> ts[i].Lit?
    decreases |ts|
    ensures ExpandTokens(d, ts, chain, acc) == Expansion(Ok(acc + Literals(ts)), d)
  {
    if ts != [] {
      assert ts[0].Lit?;
      assert forall i :: 0 <= i < |ts[1..]| ==> ts[1..][i].Lit?;
      assert ExpandTokens(d, ts, chain, acc) == ExpandTokens(d, ts[1..], chain, acc + [ts[0].c]);
      ExpandLiterals(d, ts[1..], chain, acc + [ts[0].c]);
      Assoc(acc, [ts[0].c], Literals(ts[1..]));
    } else {
      assert acc + [] == acc;
    }
  }

  /**
   * For clean definitions, memoisation is invisible: the memoised expand
   * succeeds with the value of the plain substitution, and every entry it
   * writes back is that entry's final value.
   */
  lemma {:induction false} ExpandAgrees(d0: map<string, string>, d: map<string, string>, name: string, parents: seq<string>)
    requires Clean(d0) && Memo(d0, d)
    requires name in d && name !in parents && Elems(parents) <= d.Keys
    requires Resolve(d0, name, parents).Ok?
    decreases |d.Keys - Elems(parents)|, 0, 0
    ensures var e := ExpandName(d, name, parents);
            e.result == Resolve(d0, name, parents) && Settles(d0, d, e.defs)
  {
    RankDrops(d.Keys, parents, name);
    ResolveAnyChain(d0, name, parents, []);
    if d[name] == d0[name] {
      ResolvePlain(d0, name, parents);
      ExpandTokensAgree(d0, d, Scan(d[name]), parents + [name], []);
      var v := Resolve(d0, name, parents).value;
      assert [] + v == v;
    } else {
      ExpandFinal(d0, d, name, parents);
    }
  }

  /** Expanding an entry that already holds its final value returns it and changes nothing. */
  lemma ExpandFinal(d0: map<string, string>, d: map<string, string>, name: string, parents: seq<string>)
    requires name in d && name !in parents && Elems(parents) <= d.Keys
    requires Final(d0, name, d[name])
    ensures ExpandName(d, name, parents) == Expansion(Ok(d[name]), d)
  {
    ScanPlain(d[name]);
    ExpandLiterals(d, Scan(d[name]), parents + [name], []);
    assert [] + d[name] == d[name];
    assert d[name := d[name]] == d;
  }

  lemma {:induction false} ExpandTokensAgree(d0: map<string, string>, d: map<string, string>, ts: seq<Token>, chain: seq<string>, acc: string)
    requires Clean(d0) && Memo(d0, d)
    requires Elems(chain) <= d.Keys
    requires ResolveTokens(d0, ts, chain).Ok?
    decreases |d.Keys - Elems(chain)|, 1, |ts|
    ensures var e := ExpandTokens(d, ts, chain, acc);
            e.result == Ok(acc + ResolveTokens(d0, ts, chain).value) && Settles(d0, d, e.defs)
  {
    if ts == [] {
      assert acc + [] == acc;
    } else {
      var tail := ResolveTokens(d0, ts[1..], chain).value;
      match ts[0]
      case Lit(c) =>
        ExpandTokensAgree(d0, d, ts[1..], chain, acc + [c]);
        Assoc(acc, [c], tail);
      case Ref(child) =>
        ExpandAgrees(d0, d, child, chain);
        var e := ExpandName(d, child, chain);
        var vc := e.result.value;
        assert Memo(d0, e.defs);
        ExpandTokensAgree(d0, e.defs, ts[1..], chain, acc + vc);
        Assoc(acc, vc, tail);
    }
  }

  /*
   * References between definitions
   */

  /** `path` follows references: each name but the last is defined and its value refers to the next. */
  ghost predicate RefPath(d: map<string, string>, path: seq<string>)
  {
    forall i :: 0 <= i < |path| - 1 ==> path[i] in d && Ref(path[i + 1]) in Scan(d[path[i]])
  }

  /** `a` reaches `b` through one or more references. */
  ghost predicate Reaches(d: map<string, string>, a: string, b: string)
  {
    exists path :: |path| >= 2 && path[0] == a && path[|path| - 1] == b && RefPath(d, path)
  }

  /** A reference from `a` to the start of a path makes a longer path. */
  lemma PathCons(d: map<string, string>, a: string, path: seq<string>)
    requires path != [] && a in d && Ref(path[0]) in Scan(d[a]) && RefPath(d, path)
    ensures RefPath(d, [a] + path)
  {
    var longer := [a] + path;
    forall i | 0 <= i < |longer| - 1
      ensures longer[i] in d && Ref(longer[i + 1]) in Scan(d[longer[i]])
    {
      if i > 0 {
        assert longer[i] == path[i - 1] && longer[i + 1] == path[i];
      }
    }
  }

  /** A path followed by a reference from its last name is a longer path. */
  lemma PathSnoc(d: map<string, string>, path: seq<string>, b: string)
    requires path != [] && RefPath(d, path)
    requires path[|path| - 1] in d && Ref(b) in Scan(d[path[|path| - 1]])
    ensures RefPath(d, path + [b])
  {
    var longer := path + [b];
    forall i | 0 <= i < |longer| - 1
      ensures longer[i] in d && Ref(longer[i + 1]) in Scan(d[longer[i]])
    {
      assert longer[i] == path[i];
    }
  }

  /** Two paths that meet make one: the second continues where the first ends. */
  lemma PathJoin(d: map<string, string>, p: seq<string>, q: seq<string>)
    requires p != [] && q != [] && RefPath(d, p) && RefPath(d, q)
    ensures p[|p| - 1] == q[0] ==> RefPath(d, p + q[1..])
  {
    if p[|p| - 1] == q[0] {
      var joined := p + q[1..];
      forall i | 0 <= i < |joined| - 1
        ensures joined[i] in d && Ref(joined[i + 1]) in Scan(d[joined[i]])
      {
        if i < |p| - 1 {
          assert joined[i] == p[i] && joined[i + 1] == p[i + 1];
        } else {
          assert joined[i] == q[i - |p| + 1] && joined[i + 1] == q[i - |p| + 2];
        }
      }
    }
  }

  /** The part of a path from one of its names on is a path. */
  lemma PathSuffix(d: map<string, string>, path: seq<string>, j: nat)
    requires j < |path| && RefPath(d, path)
    ensures RefPath(d, path[j..])
  {
    var rest := path[j..];
    forall i | 0 <= i < |rest| - 1
      ensures rest[i] in d && Ref(rest[i + 1]) in Scan(d[rest[i]])
    {
      assert rest[i] == path[j + i] && rest[i + 1] == path[j + i + 1];
    }
  }

  /** A name that reaches `x` through a reference of `a`'s is reached from `a` too. */
  lemma ReachesStep(d: map<string, string>, a: string, c: string, x: string)
    requires a in d && Ref(c) in Scan(d[a]) && Reaches(d, c, x)
    ensures Reaches(d, a, x)
  {
    var path :| |path| >= 2 && path[0] == c && path[|path| - 1] == x && RefPath(d, path);
    PathCons(d, a, path);
    var longer := [a] + path;
    assert longer[0] == a && longer[|longer| - 1] == x;
  }

  /** A reference among tokens that resolve is to a definition off the chain, and it resolves. */
  lemma {:induction false} ResolveTokensRef(d: map<string, string>, ts: seq<Token>, chain: seq<string>, child: string)
    requires Elems(chain) <= d.Keys
    requires ResolveTokens(d, ts, chain).Ok? && Ref(child) in ts
    decreases |ts|
    ensures child in d && child !in chain && Resolve(d, child, chain).Ok?
  {
    if ts[0] != Ref(child) {
      var i :| 0 <= i < |ts| && ts[i] == Ref(child);
      assert ts[1..][i - 1] == Ref(child);
      ResolveTokensRef(d, ts[1..], chain, child);
    }
  }

  /**
   * A definition that resolves reaches only definitions, none of them on
   * the chain it was reached through, and never itself.
   */
  lemma {:induction false} ResolveAvoids(d: map<string, string>, name: string, parents: seq<string>, path: seq<string>)
    requires name in d && name !in parents && Elems(parents) <= d.Keys
    decreases |path|
    ensures Resolve(d, name, parents).Ok? && |path| >= 2 && path[0] == name && RefPath(d, path) ==>
              var last := path[|path| - 1];
              last in d && last !in parents && last != name
  {
    if Resolve(d, name, parents).Ok? && |path| >= 2 && path[0] == name && RefPath(d, path) {
      RankDrops(d.Keys, parents, name);
      var chain := parents + [name];
      var child := path[1];
      ResolveTokensRef(d, Scan(d[name]), chain, child);
      if |path| > 2 {
        var rest := path[1..];
        PathSuffix(d, path, 1);
        ResolveAvoids(d, child, chain, rest);
        assert rest[|rest| - 1] == path[|path| - 1];
      }
    }
  }

  /**
   * A definition that reaches itself, directly or through any number of
   * others, does not resolve.
   */
  lemma DefinitionCycle(d: map<string, string>, name: string)
    requires name in d && Reaches(d, name, name)
    ensures Resolve(d, name, []).Err?
  {
    var path :| |path| >= 2 && path[0] == name && path[|path| - 1] == name && RefPath(d, path);
    ResolveAvoids(d, name, [], path);
  }

  /**
   * A definition that resolves resolves to the same value through any
   * chain that holds nothing it reaches.
   */
  lemma {:induction false} ResolveExtends(d: map<string, string>, name: string, p: seq<string>, q: seq<string>)
    requires name in d && name !in p && name !in q && Elems(p) <= d.Keys && Elems(q) <= d.Keys
    requires Resolve(d, name, p).Ok?
    requires forall x :: x in q ==> !Reaches(d, name, x)
    decreases |d.Keys - Elems(q)|, 0, 0
    ensures Resolve(d, name, q) == Resolve(d, name, p)
  {
    RankDrops(d.Keys, q, name);
    RankDrops(d.Keys, p, name);
    var ts := Scan(d[name]);
    forall c | Ref(c) in ts
      ensures c !in q + [name] && forall x :: x in q + [name] ==> !Reaches(d, c, x)
    {
      ChildAvoids(d, name, p, q, c);
    }
    ResolveTokensExtends(d, ts, p + [name], q + [name]);
  }

  /**
   * A reference of a definition that resolves and reaches nothing on `q`
   * is neither on `q` nor the definition itself, and reaches neither.
   */
  lemma ChildAvoids(d: map<string, string>, name: string, p: seq<string>, q: seq<string>, c: string)
    requires name in d && name !in p && Elems(p) <= d.Keys
    requires Resolve(d, name, p).Ok? && Ref(c) in Scan(d[name])
    requires forall x :: x in q ==> !Reaches(d, name, x)
    ensures c !in q + [name] && forall x :: x in q + [name] ==> !Reaches(d, c, x)
  {
    assert RefPath(d, [name, c]);
    assert Reaches(d, name, c);
    ResolveAvoids(d, name, p, [name, c]);
    forall x | x in q
      ensures !Reaches(d, c, x)
    {
      if Reaches(d, c, x) {
        ReachesStep(d, name, c, x);
      }
    }
    forall path | |path| >= 2 && path[0] == c && RefPath(d, path)
      ensures path[|path| - 1] != name
    {
      PathCons(d, name, path);
      ResolveAvoids(d, name, p, [name] + path);
    }
  }

  lemma {:induction false} ResolveTokensExtends(d: map<string, string>, ts: seq<Token>, p: seq<string>, q: seq<string>)
    requires Elems(p) <= d.Keys && Elems(q) <= d.Keys
    requires ResolveTokens(d, ts, p).Ok?
    requires forall c :: Ref(c) in ts ==> c !in q && forall x :: x in q ==> !Reaches(d, c, x)
    decreases |d.Keys - Elems(q)|, 1, |ts|
    ensures ResolveTokens(d, ts, q) == ResolveTokens(d, ts, p)
  {
    if ts != [] {
      assert forall c :: Ref(c) in ts[1..] ==> Ref(c) in ts;
      ResolveTokensExtends(d, ts[1..], p, q);
      match ts[0]
      case Lit(_) =>
      case Ref(child) =>
        assert Ref(child) in ts;
        ResolveTokensRef(d, ts, p, child);
        ResolveExtends(d, child, p, q);
    }
  }

  /**
   * A definition reached along a path of references resolves through that
   * path as it does from the start: a name on the path that it reached
   * again would make it reach itself.
   */
  lemma ResolveAlongPath(d: map<string, string>, name: string, parents: seq<string>)
    requires name in d && name !in parents && Elems(parents) <= d.Keys
    requires RefPath(d, parents + [name])
    ensures Resolve(d, name, []).Ok? ==> Resolve(d, name, parents) == Resolve(d, name, [])
  {
    if Resolve(d, name, []).Ok? {
      var chain := parents + [name];
      forall x | x in parents
        ensures !Reaches(d, name, x)
      {
        var j :| 0 <= j < |parents| && parents[j] == x;
        PathSuffix(d, chain, j);
        var back := chain[j..];
        assert back[0] == x && back[|back| - 1] == name && |back| >= 2;
        forall path | |path| >= 2 && path[0] == name && RefPath(d, path)
          ensures path[|path| - 1] != x
        {
          PathJoin(d, path, back);
          var cycle := path + back[1..];
          assert cycle[0] == name && cycle[|cycle| - 1] == name;
          ResolveAvoids(d, name, [], cycle);
        }
      }
      ResolveExtends(d, name, [], parents);
    }
  }

  /**
   * The error direction of ExpandAgrees: for clean definitions, when the
   * plain substitution of a name reached along references fails, the
   * memoised expand fails too.
   */
  lemma {:induction false} ExpandErrs(d0: map<string, string>, d: map<string, string>, name: string, parents: seq<string>)
    requires Clean(d0) && Memo(d0, d)
    requires name in d && name !in parents && Elems(parents) <= d.Keys
    requires RefPath(d0, parents + [name])
    requires Resolve(d0, name, parents).Err?
    decreases |d.Keys - Elems(parents)|, 0, 0
    ensures ExpandName(d, name, parents).result.Err?
  {
    RankDrops(d.Keys, parents, name);
    ResolveAlongPath(d0, name, parents);
    var chain := parents + [name];
    assert chain[|chain| - 1] == name;
    ExpandTokensErrs(d0, d, Scan(d[name]), chain, []);
  }

  lemma {:induction false} ExpandTokensErrs(d0: map<string, string>, d: map<string, string>, ts: seq<Token>, chain: seq<string>, acc: string)
    requires Clean(d0) && Memo(d0, d)
    requires Elems(chain) <= d.Keys && chain != [] && RefPath(d0, chain)
    requires forall c :: Ref(c) in ts ==> Ref(c) in Scan(d0[chain[|chain| - 1]])
    requires ResolveTokens(d0, ts, chain).Err?
    decreases |d.Keys - Elems(chain)|, 1, |ts|
    ensures ExpandTokens(d, ts, chain, acc).result.Err?
  {
    assert forall c :: Ref(c) in ts[1..] ==> Ref(c) in ts;
    match ts[0]
    case Lit(c) =>
      ExpandTokensErrs(d0, d, ts[1..], chain, acc + [c]);
    case Ref(child) =>
      if child in d && child !in chain {
        if Resolve(d0, child, chain).Err? {
          assert Ref(child) in ts;
          PathSnoc(d0, chain, child);
          ExpandErrs(d0, d, child, chain);
        } else {
          ExpandAgrees(d0, d, child, chain);
          var e := ExpandName(d, child, chain);
          assert Memo(d0, e.defs);
          ExpandTokensErrs(d0, e.defs, ts[1..], chain, acc + e.result.value);
        }
      }
  }

  /**
   * Why ExpandErrs asks for a chain of references: with A = "%B%" already
   * expanded to "x", expanding A through the chain [B] returns "x", while
   * the plain substitution through that chain meets B again.  No call of
   * the script reaches A that way, because B does not refer to A.
   */
  lemma ChainOffPath(d0: map<string, string>, d: map<string, string>)
    requires d0 == map["A" := "%B%", "B" := "x"] && d == d0["A" := "x"]
    ensures Clean(d0) && Memo(d0, d)
    ensures Resolve(d0, "A", ["B"]).Err?
    ensures ExpandName(d, "A", ["B"]).result == Ok("x")
    ensures !RefPath(d0, ["B", "A"])
  {
    ExampleScans();
    ExampleResolves(d0);
    ExampleClean(d0, d);
    ExampleExpands(d);
    var path := ["B", "A"];
    assert path[0] in d0 && d0[path[0]] == "x";
    assert Ref(path[1]) !in [Lit('x')];
  }

  lemma ExampleClean(d0: map<string, string>, d: map<string, string>)
    requires d0 == map["A" := "%B%", "B" := "x"] && d == d0["A" := "x"]
    requires Scan("%B%") == [Ref("B")] && Scan("x") == [Lit('x')] && Literals([Lit('x')]) == "x"
    requires Resolve(d0, "A", []) == Ok("x")
    ensures Clean(d0) && Memo(d0, d)
  {
    assert Literals([Ref("B")]) == [];
    forall k | k in d0
      ensures '%' !in Literals(Scan(d0[k]))
    {
      if k == "A" {
      } else {
        assert d0[k] == "x";
      }
    }
    assert Final(d0, "A", "x");
    forall k | k in d
      ensures d[k] == d0[k] || Final(d0, k, d[k])
    {
      if k != "A" {
        assert d[k] == d0[k];
      }
    }
  }

  lemma ExampleScans()
    ensures Scan("%B%") == [Ref("B")] && Scan("x") == [Lit('x')] && Literals([Lit('x')]) == "x"
  {
    assert IsName("B") by {
      assert "B"[0] == 'B';
    }
    ScanRef("B", "");
    assert "%B%" == "%" + "B" + "%" + "";
    ScanLit('x', "");
    assert "x" == ['x'] + "";
  }

  lemma ExampleResolves(d0: map<string, string>)
    requires d0 == map["A" := "%B%", "B" := "x"]
    requires Scan("%B%") == [Ref("B")] && Scan("x") == [Lit('x')] && Literals([Lit('x')]) == "x"
    ensures Resolve(d0, "A", []) == Ok("x") && Resolve(d0, "A", ["B"]).Err?
  {
    assert Elems(["A"]) == {"A"} && Elems(["A", "B"]) == {"A", "B"};
    assert [] + ["A"] == ["A"] && ["A"] + ["B"] == ["A", "B"];
    ResolveLiterals(d0, [Lit('x')], ["A", "B"]);
    assert Resolve(d0, "B", ["A"]) == Ok("x");
    ResolveRefStep(d0, "B", [], ["A"], "x", []);
    assert [Ref("B")] + [] == [Ref("B")];
    assert "x" + [] == "x";
    assert Elems(["B"]) == {"B"} && ["B"] + ["A"] == ["B", "A"];
    assert Elems(["B", "A"]) == {"A", "B"};
    assert ResolveTokens(d0, [Ref("B")], ["B", "A"]).Err?;
  }

  lemma ExampleExpands(d: map<string, string>)
    requires d == map["A" := "x", "B" := "x"]
    requires Scan("x") == [Lit('x')] && Literals([Lit('x')]) == "x"
    ensures ExpandName(d, "A", ["B"]).result == Ok("x")
  {
    assert Elems(["B"]) == {"B"} && ["B"] + ["A"] == ["B", "A"];
    assert Elems(["B", "A"]) == {"A", "B"};
    ExpandLiterals(d, [Lit('x')], ["B", "A"], []);
    assert [] + "x" == "x";
    NameStep(d, "A", ["B"]);
  }

  /**
   * For clean definitions, the memoised expand of a name reached along
   * references succeeds exactly when the plain substitution does, with the
   * same value, and leaves every entry with its original or final value.
   */
  lemma ExpandMatches(d0: map<string, string>, d: map<string, string>, name: string, parents: seq<string>)
    requires Clean(d0) && Memo(d0, d)
    requires name in d && name !in parents && Elems(parents) <= d.Keys
    requires RefPath(d0, parents + [name])
    ensures var e := ExpandName(d, name, parents);
            && (e.result.Ok? <==> Resolve(d0, name, parents).Ok?)
            && (e.result.Ok? ==> e.result == Resolve(d0, name, parents) && Memo(d0, e.defs))
  {
    if Resolve(d0, name, parents).Ok? {
      ExpandAgrees(d0, d, name, parents);
    } else {
      ExpandErrs(d0, d, name, parents);
    }
  }

  /**
   * One step of `map(expand, ...)`: expanding a name from the top succeeds
   * exactly when it resolves; in particular a definition that reaches
   * itself stops the script with an error.
   */
  lemma ExpandStep(d0: map<string, string>, d: map<string, string>, name: string)
    requires Clean(d0) && Memo(d0, d) && name in d
    ensures var e := ExpandName(d, name, []);
            && (e.result.Ok? <==> Resolve(d0, name, []).Ok?)
            && (e.result.Ok? ==> e.result == Resolve(d0, name, []) && Memo(d0, e.defs))
            && (Reaches(d0, name, name) ==> e.result.Err?)
  {
    assert [] + [name] == [name];
    ExpandMatches(d0, d, name, []);
    if Reaches(d0, name, name) {
      DefinitionCycle(d0, name);
    }
  }

  /** `name` followed by `tail` scans as that name when `tail` starts with no word character. */
  lemma {:induction false} WordRunOf(name: string, tail: string)
    requires AllWord(name)
    requires tail == [] || !IsWord(tail[0])
    ensures WordRun(name + tail) == |name|
  {
    if name != [] {
      assert (name + tail)[1..] == name[1..] + tail;
      WordRunOf(name[1..], tail);
    } else {
      assert name + tail == tail;
    }
  }

  /** `%NAME%` at the front of a text is a reference to NAME. */
  lemma RefAtOf(name: string, tail: string)
    requires IsName(name)
    ensures RefAt("%" + name + "%" + tail) == Some(name)
  {
    var s := "%" + name + "%" + tail;
    var after := "%" + tail;
    assert s[1..] == name + after;
    WordRunOf(name, after);
    assert s[0] == '%';
    assert s[1 + |name|] == '%';
    assert s[1..1 + |name|] == name;
  }

  /** `%NAME%` followed by anything scans as a reference to NAME. */
  lemma ScanRef(name: string, tail: string)
    requires IsName(name)
    ensures Scan("%" + name + "%" + tail) == [Ref(name)] + Scan(tail)
  {
    var s := "%" + name + "%" + tail;
    RefAtOf(name, tail);
    assert s[|name| + 2..] == tail;
  }

  /** A character that starts no reference scans as itself. */
  lemma ScanLit(c: char, tail: string)
    requires c != '%' || tail == [] || !IsWord(tail[0])
    ensures Scan([c] + tail) == [Lit(c)] + Scan(tail)
  {
    assert ([c] + tail)[1..] == tail;
  }

  /** A definition that refers to itself directly is a cycle error. */
  lemma SelfReference(d: map<string, string>, name: string)
    requires name in d && IsName(name)
    requires d[name] == "%" + name + "%"
    ensures ExpandName(d, name, []).result == Err(DefineCycle([name, name]))
  {
    ScanRef(name, "");
    assert d[name] == "%" + name + "%" + "";
    assert Scan(d[name]) == [Ref(name)];
    assert [] + [name] == [name];
    assert [name] + [name] == [name, name];
    assert ExpandTokens(d, [Ref(name)], [name], []).result == Err(DefineCycle([name, name]));
  }

  /**
   * Two definitions that refer to each other: expanding the first reaches
   * it again through the second.
   */
  lemma MutualReference(d: map<string, string>, a: string, b: string)
    requires a in d && IsName(a)
    requires b in d && IsName(b)
    requires a != b && d[a] == "%" + b + "%" && d[b] == "%" + a + "%"
    ensures ExpandName(d, a, []).result == Err(DefineCycle([a, b, a]))
  {
    ScanRef(b, "");
    ScanRef(a, "");
    assert d[a] == "%" + b + "%" + "";
    assert d[b] == "%" + a + "%" + "";
    assert [] + [a] == [a];
    assert Elems([a]) == {a};
    assert [a] + [b] == [a, b];
    assert Elems([a, b]) == {a, b};
    ReferenceChecks(d, a, [], [a, b], []);
    assert [a, b] + [a] == [a, b, a];
    assert [Ref(a)] + [] == [Ref(a)];
    assert [Ref(b)] + [] == [Ref(b)];
    NameStep(d, b, [a]);
    RefStep(d, b, [], [a], []);
    NameStep(d, a, []);
  }

  lemma ReferenceChecks(d: map<string, string>, child: string, rest: seq<Token>, chain: seq<string>, acc: string)
    requires Elems(chain) <= d.Keys
    ensures child !in d ==> ExpandTokens(d, [Ref(child)] + rest, chain, acc).result == Err(Undefined(child))
    ensures child in d && child in chain ==>
              ExpandTokens(d, [Ref(child)] + rest, chain, acc).result == Err(DefineCycle(chain + [child]))
  {
    assert ([Ref(child)] + rest)[0] == Ref(child);
  }

  /**
   * When a value holds a '%' that is not part of a reference, the
   * memoised expansion differs from the plain one.  With A = "x%B%y%",
   * B = "%" and C = "%A%", expanding A writes back "x%y%"; expanding C
   * afterwards rescans that value and finds a reference to the undefined
   * name y, where the plain substitution gives "x%y%".
   */
  lemma MemoRescans(d: map<string, string>, a: string, b: string, c: string, x: char, y: char)
    requires IsName(a) && IsName(b) && IsName(c) && IsWord(y) && x != '%'
    requires a in d && b in d && c in d && [y] !in d && a != b && a != c && b != c
    requires d[a] == [x] + ("%" + b + "%" + [y, '%']) && d[b] == "%" && d[c] == "%" + a + "%"
    ensures var e := ExpandName(d, a, []);
            && e.result == Ok([x, '%', y, '%'])
            && ExpandName(e.defs, c, []).result == Err(Undefined([y]))
            && Resolve(d, c, []) == Ok([x, '%', y, '%'])
  {
    var v := [x, '%', y, '%'];
    ExpandsFirst(d, a, b, x, y);
    var d' := d[a := v];
    assert d'[c] == "%" + a + "%";
    RescansSecond(d', a, c, x, y);
    ResolvesSecond(d, a, b, c, x, y);
  }

  lemma NameStep(d: map<string, string>, name: string, parents: seq<string>)
    requires name in d && name !in parents && Elems(parents) <= d.Keys
    ensures var e := ExpandTokens(d, Scan(d[name]), parents + [name], []);
            ExpandName(d, name, parents) == if e.result.Err? then e else Expansion(e.result, e.defs[name := e.result.value])
  {
  }

  lemma RefStep(d: map<string, string>, child: string, ts: seq<Token>, chain: seq<string>, acc: string)
    requires Elems(chain) <= d.Keys && child in d && child !in chain
    ensures var e := ExpandName(d, child, chain);
            ExpandTokens(d, [Ref(child)] + ts, chain, acc)
            == if e.result.Err? then e else ExpandTokens(e.defs, ts, chain, acc + e.result.value)
  {
    assert ([Ref(child)] + ts)[1..] == ts;
  }

  lemma ExpandLitStep(d: map<string, string>, c: char, ts: seq<Token>, chain: seq<string>, acc: string)
    requires Elems(chain) <= d.Keys
    ensures ExpandTokens(d, [Lit(c)] + ts, chain, acc) == ExpandTokens(d, ts, chain, acc + [c])
  {
    assert ([Lit(c)] + ts)[1..] == ts;
  }

  lemma ScanPercent()
    ensures Scan("%") == [Lit('%')]
  {
    ScanLit('%', "");
    assert "%" == ['%'] + "";
  }

  /** The scan of A's value: a character, the reference to B, then y and '%' as they are. */
  lemma ScanFirstValue(b: string, x: char, y: char)
    requires IsName(b) && IsWord(y) && x != '%'
    ensures Scan([x] + ("%" + b + "%" + [y, '%'])) == [Lit(x), Ref(b), Lit(y), Lit('%')]
  {
    ScanPercent();
    ScanLit(y, "%");
    assert [y, '%'] == [y] + "%";
    ScanRef(b, [y, '%']);
    ScanLit(x, "%" + b + "%" + [y, '%']);
  }

  /** The scan of A's expanded value: a character, then a reference to y. */
  lemma ScanExpandedFirst(x: char, y: char)
    requires IsWord(y) && x != '%'
    ensures Scan([x, '%', y, '%']) == [Lit(x), Ref([y])]
  {
    ScanRef([y], "");
    assert "%" + [y] + "%" + "" == ['%', y, '%'];
    ScanLit(x, ['%', y, '%']);
    assert [x, '%', y, '%'] == [x] + ['%', y, '%'];
    assert Scan("") == [];
  }

  /** A definition that is "%" expands to itself. */
  lemma ExpandsPercent(d: map<string, string>, a: string, b: string)
    requires a in d && b in d && a != b && d[b] == "%"
    ensures ExpandName(d, b, [a]) == Expansion(Ok("%"), d)
  {
    assert Elems([a]) == {a};
    ScanPercent();
    NameStep(d, b, [a]);
    assert Elems([a] + [b]) == {a, b};
    ExpandLiterals(d, [Lit('%')], [a] + [b], []);
    assert [] + Literals([Lit('%')]) == "%";
    assert d[b := "%"] == d;
  }

  lemma ExpandsFirstValue(d: map<string, string>, a: string, b: string, x: char, y: char)
    requires a in d && b in d && a != b && d[b] == "%"
    ensures ExpandTokens(d, [Lit(x), Ref(b), Lit(y), Lit('%')], [a], []) == Expansion(Ok([x, '%', y, '%']), d)
  {
    ExpandsPercent(d, a, b);
    assert Elems([a]) == {a};
    var tail := [Lit(y), Lit('%')];
    ExpandLiterals(d, tail, [a], [x, '%']);
    assert tail[1..] == [Lit('%')] && Literals([Lit('%')]) == "%";
    assert Literals(tail) == [y, '%'];
    assert [x, '%'] + Literals(tail) == [x, '%', y, '%'];
    RefStep(d, b, tail, [a], [x]);
    assert [x] + "%" == [x, '%'];
    ExpandLitStep(d, x, [Ref(b)] + tail, [a], []);
    assert [] + [x] == [x];
    assert [Lit(x)] + ([Ref(b)] + tail) == [Lit(x), Ref(b), Lit(y), Lit('%')];
  }

  lemma ExpandsFirst(d: map<string, string>, a: string, b: string, x: char, y: char)
    requires IsName(b) && IsWord(y) && x != '%'
    requires a in d && b in d && a != b && d[b] == "%" && d[a] == [x] + ("%" + b + "%" + [y, '%'])
    ensures ExpandName(d, a, []) == Expansion(Ok([x, '%', y, '%']), d[a := [x, '%', y, '%']])
  {
    ExpandsFirstValue(d, a, b, x, y);
    ScanFirstValue(b, x, y);
    assert [] + [a] == [a];
    NameStep(d, a, []);
  }

  lemma RescansFirst(d: map<string, string>, a: string, c: string, x: char, y: char)
    requires IsWord(y) && x != '%'
    requires a in d && c in d && [y] !in d && a != c && d[a] == [x, '%', y, '%']
    ensures ExpandName(d, a, [c]).result == Err(Undefined([y]))
  {
    var chain := [c] + [a];
    assert Elems(chain) == {c, a};
    ReferenceChecks(d, [y], [], chain, [x]);
    assert [Ref([y])] + [] == [Ref([y])];
    ExpandLitStep(d, x, [Ref([y])], chain, []);
    assert [] + [x] == [x];
    assert [Lit(x)] + [Ref([y])] == [Lit(x), Ref([y])];
    ScanExpandedFirst(x, y);
    assert Elems([c]) == {c};
    NameStep(d, a, [c]);
  }

  lemma RescansSecond(d: map<string, string>, a: string, c: string, x: char, y: char)
    requires IsName(a) && IsWord(y) && x != '%'
    requires a in d && c in d && [y] !in d && a != c
    requires d[a] == [x, '%', y, '%'] && d[c] == "%" + a + "%"
    ensures ExpandName(d, c, []).result == Err(Undefined([y]))
  {
    RescansFirst(d, a, c, x, y);
    assert Elems([c]) == {c};
    RefStep(d, a, [], [c], []);
    assert [Ref(a)] + [] == [Ref(a)];
    ScanRef(a, "");
    assert d[c] == "%" + a + "%" + "";
    assert Scan("") == [];
    assert [] + [c] == [c];
    NameStep(d, c, []);
  }

  /** Resolving text without references copies it. */
  lemma {:induction false} ResolveLiterals(d: map<string, string>, ts: seq<Token>, chain: seq<string>)
    requires Elems(chain) <= d.Keys
    requires forall i :: 0 <= i < |ts| ==> ts[i].Lit?
    decreases |ts|
    ensures ResolveTokens(d, ts, chain) == Ok(Literals(ts))
  {
    if ts != [] {
      assert ts[0].Lit?;
      assert forall i :: 0 <= i < |ts[1..]| ==> ts[1..][i].Lit?;
      ResolveLiterals(d, ts[1..], chain);
    }
  }

  /** Resolving a reference followed by text that resolves. */
  lemma ResolveRefStep(d: map<string, string>, child: string, ts: seq<Token>, chain: seq<string>, v: string, w: string)
    requires Elems(chain) <= d.Keys && child in d && child !in chain
    requires Resolve(d, child, chain) == Ok(v) && ResolveTokens(d, ts, chain) == Ok(w)
    ensures ResolveTokens(d, [Ref(child)] + ts, chain) == Ok(v + w)
  {
    assert ([Ref(child)] + ts)[1..] == ts;
  }

  /** Resolving a literal followed by text that resolves. */
  lemma ResolveLitStep(d: map<string, string>, c: char, ts: seq<Token>, chain: seq<string>, w: string)
    requires Elems(chain) <= d.Keys
    requires ResolveTokens(d, ts, chain) == Ok(w)
    ensures ResolveTokens(d, [Lit(c)] + ts, chain) == Ok([c] + w)
  {
    assert ([Lit(c)] + ts)[1..] == ts;
  }

  lemma ResolvesFirst(d: map<string, string>, a: string, b: string, c: string, x: char, y: char)
    requires IsName(b) && IsWord(y) && x != '%'
    requires a in d && b in d && c in d && a != b && a != c && b != c
    requires d[a] == [x] + ("%" + b + "%" + [y, '%']) && d[b] == "%"
    ensures Resolve(d, a, [c]) == Ok([x, '%', y, '%'])
  {
    var chain := [c, a];
    assert [c] + [a] == chain;
    assert Elems(chain) == {c, a};
    ScanPercent();
    assert Elems(chain + [b]) == {c, a, b};
    ResolveLiterals(d, [Lit('%')], chain + [b]);
    assert Literals([Lit('%')]) == "%";
    assert Resolve(d, b, chain) == Ok("%");
    var tail := [Lit(y), Lit('%')];
    ResolveLiterals(d, tail, chain);
    assert Literals(tail) == [y, '%'];
    ResolveRefStep(d, b, tail, chain, "%", [y, '%']);
    assert "%" + [y, '%'] == ['%', y, '%'];
    ResolveLitStep(d, x, [Ref(b)] + tail, chain, ['%', y, '%']);
    assert [x] + ['%', y, '%'] == [x, '%', y, '%'];
    assert [Lit(x)] + ([Ref(b)] + tail) == [Lit(x), Ref(b), Lit(y), Lit('%')];
    ScanFirstValue(b, x, y);
  }

  lemma ResolvesSecond(d: map<string, string>, a: string, b: string, c: string, x: char, y: char)
    requires IsName(a) && IsName(b) && IsWord(y) && x != '%'
    requires a in d && b in d && c in d && a != b && a != c && b != c
    requires d[a] == [x] + ("%" + b + "%" + [y, '%']) && d[b] == "%" && d[c] == "%" + a + "%"
    ensures Resolve(d, c, []) == Ok([x, '%', y, '%'])
  {
    assert Elems([c]) == {c};
    ResolvesFirst(d, a, b, c, x, y);
    assert ResolveTokens(d, [], [c]) == Ok([]);
    ResolveRefStep(d, a, [], [c], [x, '%', y, '%'], []);
    assert [Ref(a)] + [] == [Ref(a)];
    assert [x, '%', y, '%'] + [] == [x, '%', y, '%'];
    ScanRef(a, "");
    assert d[c] == "%" + a + "%" + "";
    assert Scan("") == [];
    assert [] + [c] == [c];
  }

  /*
   * The dictionary of definitions
   */

  /**
   * An OrderedDict from name to value: the names in the order of their
   * first definition, and the current values.
   */
  datatype Defs = Defs(order: seq<string>, values: map<string, string>)
  {
    ghost predicate Valid()
    {
      && (forall k :: k in order ==> k in values)
      && (forall k :: k in values ==> k in order)
    }

    /** `defns[name] = value`: a new name goes last, a known one keeps its place. */
    function Put(name: string, value: string): (r: Defs)
      ensures Valid() ==> r.Valid()
      ensures r.values == values[name := value]
      ensures r.order == if name in values then order else order + [name]
    {
      Defs(if name in values then order else order + [name], values[name := value])
    }
  }

  /**
   * A later definition of a name replaces the value of an earlier one, and
   * the name keeps the place its first definition gave it.
   */
  lemma RedefinitionOverwrites(defs: Defs, name: string, first: string, second: string)
    ensures defs.Put(name, first).Put(name, second) == defs.Put(name, second)
    ensures defs.Put(name, first).Put(name, second).values[name] == second
  {
  }

  /** Every definition resolves without error. */
  ghost predicate Resolvable(d: map<string, string>)
  {
    forall k :: k in d ==> Resolve(d, k, []).Ok?
  }

  /** The value every definition expands to. */
  ghost function Resolved(d: map<string, string>): (r: map<string, string>)
    requires Resolvable(d)
    ensures r.Keys == d.Keys
  {
    map k | k in d :: Resolve(d, k, []).value
  }

  /**
   * `map(expand, defns.iterkeys())`: expand every definition in the order
   * of the dictionary, each expansion writing back into it.  For clean
   * definitions the run succeeds exactly when every definition resolves,
   * so an undefined name or a definition that reaches itself stops it;
   * when it succeeds, every value ends up fully expanded.
   */
  method ExpandAll(defns: Defs) returns (r: Result<Defs>)
    requires defns.Valid()
    ensures r.Ok? ==> r.value.order == defns.order && r.value.values.Keys == defns.values.Keys
    ensures Clean(defns.values) ==> (r.Ok? <==> Resolvable(defns.values))
    ensures Clean(defns.values) && (exists k :: k in defns.values && Reaches(defns.values, k, k)) ==> r.Err?
    ensures Clean(defns.values) && Resolvable(defns.values) ==>
              r == Ok(Defs(defns.order, Resolved(defns.values)))
  {
    ghost var d0 := defns.values;
    CycleUnresolvable(d0);
    var d := defns.values;
    for i := 0 to |defns.order|
      invariant d.Keys == d0.Keys
      invariant Progress(d0, d, defns.order, i)
    {
      var e := ExpandName(d, defns.order[i], []);
      ExpandNext(d0, d, defns, i);
      if e.result.Err? {
        return Err(e.result.error);
      }
      d := e.defs;
    }
    ExpandDone(d0, d, defns);
    return Ok(Defs(defns.order, d));
  }

  /**
   * How far `map(expand, ...)` got with clean definitions: the entries hold
   * original or final values, the first `i` names resolved, and when all
   * of them resolve, the first `i` are settled.
   */
  ghost predicate Progress(d0: map<string, string>, d: map<string, string>, order: seq<string>, i: nat)
  {
    Clean(d0) ==>
      && Memo(d0, d)
      && i <= |order|
      && (forall j :: 0 <= j < i ==> order[j] in d0 && Resolve(d0, order[j], []).Ok?)
      && (Resolvable(d0) ==> FinalUpTo(d0, d, order, i))
  }

  /** Expanding the next name fails only on definitions that do not resolve, and otherwise makes progress. */
  lemma ExpandNext(d0: map<string, string>, d: map<string, string>, defns: Defs, i: nat)
    requires defns.Valid() && d0 == defns.values && d.Keys == d0.Keys
    requires i < |defns.order| && Progress(d0, d, defns.order, i)
    ensures var e := ExpandName(d, defns.order[i], []);
            && (Clean(d0) && e.result.Err? ==> !Resolvable(d0))
            && (e.result.Ok? ==> Progress(d0, e.defs, defns.order, i + 1))
  {
    var name := defns.order[i];
    if Clean(d0) {
      ExpandStep(d0, d, name);
      if Resolvable(d0) {
        ExpandSettles(d0, d, defns.order, i);
      }
    }
  }

  /** Once every name is expanded, clean definitions all resolve, to the values they hold. */
  lemma ExpandDone(d0: map<string, string>, d: map<string, string>, defns: Defs)
    requires defns.Valid() && d0 == defns.values && d.Keys == d0.Keys
    requires Progress(d0, d, defns.order, |defns.order|)
    ensures Clean(d0) ==> Resolvable(d0) && d == Resolved(d0)
  {
    if Clean(d0) {
      EveryNameResolves(d0, defns);
      AllFinal(d0, d, defns);
    }
  }

  /** When every name of a valid dictionary resolves, the definitions are resolvable. */
  lemma EveryNameResolves(d0: map<string, string>, defns: Defs)
    requires defns.Valid() && d0 == defns.values
    requires forall j :: 0 <= j < |defns.order| ==> Resolve(d0, defns.order[j], []).Ok?
    ensures Resolvable(d0)
  {
    forall k | k in d0
      ensures Resolve(d0, k, []).Ok?
    {
      var j :| 0 <= j < |defns.order| && defns.order[j] == k;
    }
  }

  /** A definition that reaches itself makes the definitions unresolvable. */
  lemma CycleUnresolvable(d: map<string, string>)
    ensures (exists k :: k in d && Reaches(d, k, k)) ==> !Resolvable(d)
  {
    if exists k :: k in d && Reaches(d, k, k) {
      var k :| k in d && Reaches(d, k, k);
      DefinitionCycle(d, k);
    }
  }

  /** The first `i` names of `order` hold their final values. */
  ghost predicate FinalUpTo(d0: map<string, string>, d: map<string, string>, order: seq<string>, i: nat)
  {
    i <= |order| && forall j :: 0 <= j < i ==> order[j] in d && Final(d0, order[j], d[order[j]])
  }

  /** Expanding the next name keeps every entry settled and settles that name. */
  lemma ExpandSettles(d0: map<string, string>, d: map<string, string>, order: seq<string>, i: nat)
    requires Clean(d0) && Resolvable(d0) && Memo(d0, d)
    requires i < |order| && order[i] in d && FinalUpTo(d0, d, order, i)
    ensures var e := ExpandName(d, order[i], []);
            e.result.Ok? && Memo(d0, e.defs) && FinalUpTo(d0, e.defs, order, i + 1)
  {
    var name := order[i];
    ExpandAgrees(d0, d, name, []);
    ResolvePlain(d0, name, []);
  }

  /** Once every name of a valid dictionary is settled, the values are the resolved ones. */
  lemma AllFinal(d0: map<string, string>, d: map<string, string>, defns: Defs)
    requires defns.Valid() && d0 == defns.values && d.Keys == d0.Keys && Resolvable(d0)
    requires FinalUpTo(d0, d, defns.order, |defns.order|)
    ensures d == Resolved(d0)
  {
    forall k | k in d
      ensures d[k] == Resolved(d0)[k]
    {
      var j :| 0 <= j < |defns.order| && defns.order[j] == k;
    }
  }

  /*
   * Lines
   */

  /** The length of the line at the front of `s`: the characters before its first '\n'. */
  function LineLength(s: string): (n: nat)
    ensures n <= |s| && (n < |s| ==> s[n] == '\n') && '\n' !in s[..n]
  {
    if s == [] || s[0] == '\n' then 0 else 1 + LineLength(s[1..])
  }

  /** A line followed by '\n' and more text: its length is the line's. */
  lemma {:induction false} LineLengthOf(line: string, rest: string)
    requires '\n' !in line
    ensures LineLength(line + "\n" + rest) == |line|
  {
    if line != [] {
      assert (line + "\n" + rest)[1..] == line[1..] + "\n" + rest;
      LineLengthOf(line[1..], rest);
    } else {
      assert line + "\n" + rest == ['\n'] + rest;
    }
  }

  /*
   * The `#define` pass
   */

  /** The characters Python's str.strip() removes: space, \t, \n, \v, \f and \r. */
  predicate IsSpace(c: char)
  {
    c == ' ' || c == '\t' || c == '\n' || c == '\r' || c as int == 11 || c as int == 12
  }

  predicate AllSpace(s: string)
  {
    forall i :: 0 <= i < |s| ==> IsSpace(s[i])
  }

  /** `s` without the whitespace at its front. */
  function TrimStart(s: string): (r: string)
    ensures |r| <= |s| && r == s[|s| - |r|..]
    ensures AllSpace(s[..|s| - |r|])
    ensures r == [] || !IsSpace(r[0])
  {
    if s != [] && IsSpace(s[0]) then TrimStart(s[1..]) else s
  }

  /** `s` without the whitespace at its end. */
  function TrimEnd(s: string): (r: string)
    ensures |r| <= |s| && r == s[..|r|]
    ensures AllSpace(s[|r|..])
    ensures r == [] || !IsSpace(r[|r| - 1])
  {
    if s != [] && IsSpace(s[|s| - 1]) then TrimEnd(s[..|s| - 1]) else s
  }

  /** str.strip(). */
  function Strip(s: string): string
  {
    TrimEnd(TrimStart(s))
  }

  /**
   * Stripping removes exactly the padding: text that neither starts nor
   * ends with whitespace comes back as it was, whatever whitespace
   * surrounds it, and whitespace alone comes back empty.
   */
  lemma StripPadding(p: string, s: string, q: string)
    requires AllSpace(p) && AllSpace(q)
    requires s == [] || (!IsSpace(s[0]) && !IsSpace(s[|s| - 1]))
    ensures Strip(p + s + q) == s
  {
    if s == [] {
      assert p + s + q == p + q;
      TrimStartPadding(p + q, []);
      assert p + q + [] == p + q;
    } else {
      Assoc(p, s, q);
      TrimStartPadding(p, s + q);
      TrimEndPadding(s, q);
    }
  }

  lemma {:induction false} TrimStartPadding(p: string, t: string)
    requires AllSpace(p) && (t == [] || !IsSpace(t[0]))
    ensures TrimStart(p + t) == t
  {
    if p == [] {
      assert p + t == t;
    } else {
      assert IsSpace(p[0]);
      assert (p + t)[1..] == p[1..] + t;
      TrimStartPadding(p[1..], t);
    }
  }

  lemma {:induction false} TrimEndPadding(t: string, q: string)
    requires AllSpace(q) && (t == [] || !IsSpace(t[|t| - 1]))
    ensures TrimEnd(t + q) == t
  {
    if q == [] {
      assert t + q == t;
    } else {
      var u := t + q;
      assert IsSpace(q[|q| - 1]);
      assert u[|u| - 1] == q[|q| - 1];
      assert u[..|u| - 1] == t + q[..|q| - 1];
      TrimEndPadding(t, q[..|q| - 1]);
    }
  }

  /** A match of the `#define` pattern. */
  datatype Definition = Definition(name: string, value: string, length: nat)

  /** The run of '\r' and '\n' at the front of `s`: what `(?:\r?\n?)+` consumes. */
  function BreakRun(s: string): (n: nat)
    ensures n <= |s|
    ensures forall i :: 0 <= i < n ==> s[i] == '\r' || s[i] == '\n'
    ensures n < |s| ==> s[n] != '\r' && s[n] != '\n'
  {
    if s != [] && (s[0] == '\r' || s[0] == '\n') then 1 + BreakRun(s[1..]) else 0
  }

  /**
   * `#define (\w+) (.+)(?:\r?\n?)+` at the front of `s`: the keyword, then
   * what DefineBody matches.  `length` is how much of `s` the match covers.
   */
  function DefineAt(s: string): Option<Definition>
  {
    if |s| < 8 || s[..8] != "#define " then None
    else
      match DefineBody(s[8..])
      case None => None
      case Some(m) => Some(Definition(m.name, m.value, 8 + m.length))
  }

  /** A maximal run of word characters, one space, then what DefineValue matches. */
  function DefineBody(u: string): Option<Definition>
  {
    var n := WordRun(u);
    if n == 0 || n >= |u| || u[n] != ' ' then None
    else
      match DefineValue(u[n + 1..])
      case None => None
      case Some(m) => Some(Definition(u[..n], m.value, n + 1 + m.length))
  }

  /**
   * `(.+)(?:\r?\n?)+`: the rest of the line, at least one character ('.'
   * takes a '\r' but not a '\n'), then every '\r' and '\n' that follow.
   */
  function DefineValue(w: string): Option<Definition>
  {
    var v := LineLength(w);
    if v == 0 then None else Some(Definition([], w[..v], v + BreakRun(w[v..])))
  }

  /**
   * What a match covers: the keyword, the name, a space and the value,
   * which ends the line, then a run of '\r' and '\n' that stops before
   * any other character.
   */
  lemma DefineAtMatches(s: string)
    ensures DefineAt(s).Some? ==>
              var m := DefineAt(s).value;
              var end := 9 + |m.name| + |m.value|;
              && IsName(m.name) && m.value != [] && '\n' !in m.value
              && end <= m.length <= |s|
              && s[..end] == "#define " + m.name + " " + m.value
              && (end < |s| ==> s[end] == '\n')
              && (forall i :: end <= i < m.length ==> s[i] == '\r' || s[i] == '\n')
              && (m.length < |s| ==> s[m.length] != '\r' && s[m.length] != '\n')
  {
    if DefineAt(s).Some? {
      var u := s[8..];
      var n := WordRun(u);
      var w := u[n + 1..];
      var v := LineLength(w);
      assert w[..v] == s[9 + n..9 + n + v];
      assert s[..9 + n + v] == s[..8] + s[8..8 + n] + [' '] + s[9 + n..9 + n + v];
    }
  }

  /** A value that ends its line, followed by '\n' and a line that is not blank. */
  lemma DefineValueOf(value: string, rest: string)
    requires value != [] && '\n' !in value
    requires rest == [] || (rest[0] != '\r' && rest[0] != '\n')
    ensures DefineValue(value + ("\n" + rest)) == Some(Definition([], value, |value| + 1))
  {
    var w := value + ("\n" + rest);
    LineLengthOf(value, rest);
    assert value + "\n" + rest == w;
    assert w[..|value|] == value;
    assert w[|value|..] == "\n" + rest;
    assert ("\n" + rest)[1..] == rest;
  }

  lemma DefineBodyOf(name: string, value: string, rest: string)
    requires IsName(name) && value != [] && '\n' !in value
    requires rest == [] || (rest[0] != '\r' && rest[0] != '\n')
    ensures DefineBody(name + (" " + (value + ("\n" + rest))))
            == Some(Definition(name, value, |name| + |value| + 2))
  {
    var w := value + ("\n" + rest);
    NameThenSpace(name, w);
    DefineValueOf(value, rest);
  }

  /** A name, a space, then more: the name is the word run, and what follows the space is the rest. */
  lemma NameThenSpace(name: string, w: string)
    requires IsName(name)
    ensures var u := name + (" " + w);
            && WordRun(u) == |name| && |name| < |u| && u[|name|] == ' '
            && u[..|name|] == name && u[|name| + 1..] == w
  {
    var t1 := " " + w;
    WordRunOf(name, t1);
    var u := name + t1;
    assert u[|name|..] == t1;
    assert t1[1..] == w;
  }

  /** A `#define NAME VALUE` line is a match covering the line and its '\n'. */
  lemma DefineLine(name: string, value: string, rest: string)
    requires IsName(name) && value != [] && '\n' !in value
    requires rest == [] || (rest[0] != '\r' && rest[0] != '\n')
    ensures DefineAt("#define " + name + " " + value + "\n" + rest)
            == Some(Definition(name, value, |name| + |value| + 10))
  {
    var u := name + (" " + (value + ("\n" + rest)));
    DefineRegroup(name, value, rest);
    assert ("#define " + u)[..8] == "#define ";
    assert ("#define " + u)[8..] == u;
    DefineBodyOf(name, value, rest);
  }

  /** A `#define` line as the keyword followed by the rest, grouped from the right. */
  lemma DefineRegroup(name: string, value: string, rest: string)
    ensures "#define " + name + " " + value + "\n" + rest
            == "#define " + (name + (" " + (value + ("\n" + rest))))
  {
    var k := "#define ";
    var t3 := "\n" + rest;
    var t2 := value + t3;
    var t1 := " " + t2;
    Assoc(value, "\n", rest);
    Assoc(" ", value, t3);
    Assoc(name, " ", t2);
    Assoc(k, name, t1);
    Assoc(k + name, " ", t2);
    Assoc(k + name + " ", value, t3);
    Assoc(k + name + " " + value, "\n", rest);
  }

  /** What the pass leaves of the text, and the definitions it collected. */
  datatype DefineOutcome = DefineOutcome(text: string, defs: Defs)

  /**
   * The re.sub of the `#define` pass, from some point of the text on.
   * `bol` says whether the point starts a line, where `^` matches; `out`
   * is the text kept so far.  A match is removed and its value recorded,
   * stripped (define_repl); any other character is kept.
   */
  function DefinePass(s: string, bol: bool, defs: Defs, out: string): (r: DefineOutcome)
    ensures defs.Valid() ==> r.defs.Valid()
    ensures |r.text| <= |out| + |s|
    ensures defs.values.Keys <= r.defs.values.Keys
    decreases |s|
  {
    if s == [] then DefineOutcome(out, defs)
    else if bol && DefineAt(s).Some? then
      var m := DefineAt(s).value;
      DefinePass(s[m.length..], s[m.length - 1] == '\n', defs.Put(m.name, Strip(m.value)), out)
    else
      DefinePass(s[1..], s[0] == '\n', defs, out + [s[0]])
  }

  /** A `#define` line is removed from the text, and its value, stripped, recorded under its name. */
  lemma DefineRemoved(name: string, value: string, rest: string, defs: Defs, out: string)
    requires IsName(name) && value != [] && '\n' !in value
    requires rest == [] || (rest[0] != '\r' && rest[0] != '\n')
    ensures DefinePass("#define " + name + " " + value + "\n" + rest, true, defs, out)
            == DefinePass(rest, true, defs.Put(name, Strip(value)), out)
  {
    var s := "#define " + name + " " + value + "\n" + rest;
    DefineLine(name, value, rest);
    var k := |name| + |value| + 10;
    assert s[k - 1] == '\n';
    assert s[k..] == rest;
  }

  /** The characters of a line after its start are kept up to and including its '\n'. */
  lemma {:induction false} LineKept(s: string, defs: Defs, out: string)
    requires LineLength(s) < |s|
    decreases |s|
    ensures var n := LineLength(s);
            DefinePass(s, false, defs, out) == DefinePass(s[n + 1..], true, defs, out + s[..n + 1])
  {
    var n := LineLength(s);
    if s[0] == '\n' {
      assert s[..1] == [s[0]];
    } else {
      LineKept(s[1..], defs, out + [s[0]]);
      assert s[1..][n..] == s[n + 1..];
      assert out + [s[0]] + s[1..][..n] == out + s[..n + 1];
    }
  }

  /** A character where no definition starts is kept. */
  lemma CharKept(s: string, bol: bool, defs: Defs, out: string)
    requires s != [] && !(bol && DefineAt(s).Some?)
    ensures DefinePass(s, bol, defs, out) == DefinePass(s[1..], s[0] == '\n', defs, out + [s[0]])
  {
  }

  /** A line that does not start with the keyword holds no definition. */
  lemma NoKeyword(s: string)
    requires !(LineLength(s) >= 8 && s[..8] == "#define ")
    ensures DefineAt(s) == None
  {
    var n := LineLength(s);
    if |s| >= 8 && n < 8 {
      assert s[..8][n] == '\n';
    }
  }

  /** A line that does not start with `#define ` is kept whole, with its '\n'. */
  lemma OtherLineKept(s: string, defs: Defs, out: string)
    requires LineLength(s) < |s|
    requires !(LineLength(s) >= 8 && s[..8] == "#define ")
    ensures var n := LineLength(s);
            DefinePass(s, true, defs, out) == DefinePass(s[n + 1..], true, defs, out + s[..n + 1])
  {
    NoKeyword(s);
    CharKept(s, true, defs, out);
    if s[0] == '\n' {
      assert s[..1] == [s[0]];
    } else {
      RestOfLineKept(s, defs, out);
    }
  }

  /** After the first character of a line, the rest of it is kept. */
  lemma RestOfLineKept(s: string, defs: Defs, out: string)
    requires LineLength(s) < |s| && s[0] != '\n'
    ensures var n := LineLength(s);
            DefinePass(s[1..], false, defs, out + [s[0]]) == DefinePass(s[n + 1..], true, defs, out + s[..n + 1])
  {
    var n := LineLength(s);
    var t := s[1..];
    assert LineLength(t) == n - 1;
    LineKept(t, defs, out + [s[0]]);
    assert t[n..] == s[n + 1..];
    assert out + [s[0]] + t[..n] == out + s[..n + 1];
  }

  /** Text without a '#' holds no definition: the pass keeps it and records nothing. */
  lemma {:induction false} NoDefinitions(s: string, bol: bool, defs: Defs, out: string)
    requires '#' !in s
    decreases |s|
    ensures DefinePass(s, bol, defs, out) == DefineOutcome(out + s, defs)
  {
    if s == [] {
      assert out + s == out;
    } else {
      assert s[0] != '#';
      assert DefineAt(s).None?;
      assert '#' !in s[1..];
      NoDefinitions(s[1..], s[0] == '\n', defs, out + [s[0]]);
      assert out + [s[0]] + s[1..] == out + s;
    }
  }

  /*
   * The `#include` pass
   */

  /** A line of the form `^#include (.*)`. */
  predicate IsIncludeLine(line: string)
  {
    |line| >= 9 && line[..9] == "#include "
  }

  /**
   * The file an `#include` line names, as the pattern's group captures it:
   * everything after the keyword, a '\r' at the end included, because the
   * greedy `.*` takes the '\r' that `\r?` was written to consume.
   */
  function IncludedNameAsWritten(line: string): (r: string)
    requires IsIncludeLine(line)
    ensures line == "#include " + r
  {
    line[9..]
  }

  /** The file an `#include` line names, without the '\r' a CRLF line ends with. */
  function IncludedName(line: string): (r: string)
    requires IsIncludeLine(line)
    ensures line == "#include " + r || line == "#include " + r + "\r"
    ensures r == [] || r[|r| - 1] != '\r' || line[|line| - 1] == '\r'
  {
    if line[|line| - 1] == '\r' then line[9..|line| - 1] else line[9..]
  }

  /**
   * The include line of a CRLF file names a file whose name ends in '\r'
   * as written, and the file itself with the '\r' dropped.
   */
  lemma CarriageReturnKept(name: string)
    requires name == [] || name[|name| - 1] != '\r'
    ensures IncludedNameAsWritten("#include " + name + "\r") == name + "\r"
    ensures IncludedName("#include " + name + "\r") == name
    ensures IncludedName("#include " + name) == name
  {
    var crlf := "#include " + name + "\r";
    assert crlf[9..|crlf| - 1] == name;
    var lf := "#include " + name;
    assert lf[9..] == name;
    if name == [] {
      assert lf == "#include ";
    } else {
      assert lf[|lf| - 1] == name[|name| - 1];
    }
  }

  /**
   * include(name, parents): the contents of file `name`, each `#include`
   * line replaced by the inclusion of the file it names on the chain that
   * now ends with `name`.  A file that does not exist is an error.
   */
  function Include(files: map<string, string>, name: string, parents: seq<string>): (r: Result<string>)
    requires name !in parents
    ensures name !in files ==> r == Err(MissingFile(name))
    ensures r.Err? ==> IncludeFailure(files, parents + [name], r.error)
    decreases |files.Keys - Elems(parents)|, 0, 0
  {
    if name !in files then Err(MissingFile(name))
    else
      RankDrops(files.Keys, parents, name);
      IncludeText(files, files[name], parents + [name])
  }

  /**
   * The errors of the include pass reached through `chain`: a file that
   * does not exist, or a cycle, reported as a chain that extends `chain`
   * and ends with a file already on it.
   */
  predicate IncludeFailure(files: map<string, string>, chain: seq<string>, e: Error)
  {
    match e
    case MissingFile(n) => n !in files
    case IncludeCycle(c) => chain <= c && |c| >= 2 && c[|c| - 1] in c[..|c| - 1]
    case _ => false
  }

  /**
   * The re.sub of include's repl over `text`, line by line: an `#include`
   * line and its '\n' give way to the included file, which is an error
   * when the file is already on the chain; every other line is kept.
   */
  function IncludeText(files: map<string, string>, text: string, chain: seq<string>): (r: Result<string>)
    ensures r.Err? ==> IncludeFailure(files, chain, r.error)
    decreases |files.Keys - Elems(chain)|, 1, |text|
  {
    if text == [] then Ok([])
    else
      var n := LineLength(text);
      var next := if n < |text| then n + 1 else n;
      var head: Result<string> :=
        if IsIncludeLine(text[..n]) then
          var child := IncludedName(text[..n]);
          if child in chain then
            CycleFailure(files, chain, child);
            Err(IncludeCycle(chain + [child]))
          else
            var r := Include(files, child, chain);
            if r.Err? then FailureWidens(files, chain, child, r.error); r else r
        else Ok(text[..next]);
      if head.Err? then head
      else
        match IncludeText(files, text[next..], chain)
        case Err(e) => Err(e)
        case Ok(tail) => Ok(head.value + tail)
  }

  /** Meeting a file already on the chain is a failure of the chain. */
  lemma CycleFailure(files: map<string, string>, chain: seq<string>, child: string)
    requires child in chain
    ensures IncludeFailure(files, chain, IncludeCycle(chain + [child]))
  {
    var c := chain + [child];
    assert c[..|c| - 1] == chain;
  }

  /** A failure of a longer chain is a failure of the chain it extends. */
  lemma FailureWidens(files: map<string, string>, chain: seq<string>, child: string, e: Error)
    requires IncludeFailure(files, chain + [child], e)
    ensures IncludeFailure(files, chain, e)
  {
    if e.IncludeCycle? {
      assert chain <= chain + [child];
      assert (chain + [child])[..|chain|] == chain;
      assert e.chain[..|chain|] == chain;
    }
  }

  /** A line that is not an `#include` line is kept, with its '\n'. */
  lemma OtherLineIncluded(files: map<string, string>, line: string, rest: string, chain: seq<string>)
    requires '\n' !in line && !IsIncludeLine(line)
    ensures IncludeText(files, line + "\n" + rest, chain)
            == match IncludeText(files, rest, chain)
               case Err(e) => Err(e)
               case Ok(tail) => Ok(line + "\n" + tail)
  {
    var text := line + "\n" + rest;
    LineLengthOf(line, rest);
    assert text[..|line|] == line;
    assert text[..|line| + 1] == line + "\n";
    assert text[|line| + 1..] == rest;
  }

  /**
   * An `#include` line gives way to the included file: a file already on
   * the chain is a cycle, and an error while including stops the pass.
   */
  lemma IncludeLineReplaced(files: map<string, string>, child: string, rest: string, chain: seq<string>)
    requires '\n' !in child && (child == [] || child[|child| - 1] != '\r')
    ensures IncludeText(files, "#include " + child + "\n" + rest, chain)
            == if child in chain then Err(IncludeCycle(chain + [child]))
               else
                 match Include(files, child, chain)
                 case Err(e) => Err(e)
                 case Ok(body) =>
                   match IncludeText(files, rest, chain)
                   case Err(e) => Err(e)
                   case Ok(tail) => Ok(body + tail)
  {
    var line := "#include " + child;
    var text := line + "\n" + rest;
    assert '\n' !in "#include ";
    assert '\n' !in line;
    LineLengthOf(line, rest);
    assert text[..|line|] == line;
    assert line[..9] == "#include ";
    CarriageReturnKept(child);
    assert text[|line| + 1..] == rest;
  }

  /** Text with no '#' has no `#include` line: it is kept as it is. */
  lemma {:induction false} NoInclusions(files: map<string, string>, text: string, chain: seq<string>)
    requires '#' !in text
    decreases |text|
    ensures IncludeText(files, text, chain) == Ok(text)
  {
    if text != [] {
      var n := LineLength(text);
      var next := if n < |text| then n + 1 else n;
      assert text[0] != '#';
      assert !IsIncludeLine(text[..n]);
      assert '#' !in text[next..];
      NoInclusions(files, text[next..], chain);
      assert text[..next] + text[next..] == text;
    }
  }

  /** A file that includes itself is a cycle of two. */
  lemma IncludeSelf(files: map<string, string>, name: string, rest: string)
    requires '\n' !in name && (name == [] || name[|name| - 1] != '\r')
    requires name in files && files[name] == "#include " + name + "\n" + rest
    ensures Include(files, name, []) == Err(IncludeCycle([name, name]))
  {
    assert [] + [name] == [name];
    IncludeLineReplaced(files, name, rest, [name]);
    assert [name] + [name] == [name, name];
  }

  /** An `#include` of a file without '#' inlines its contents. */
  lemma IncludedOnce(files: map<string, string>, a: string, b: string, rest: string)
    requires '\n' !in b && (b == [] || b[|b| - 1] != '\r') && a != b
    requires b in files && '#' !in files[b]
    ensures IncludeText(files, "#include " + b + "\n" + rest, [a])
            == match IncludeText(files, rest, [a])
               case Err(e) => Err(e)
               case Ok(tail) => Ok(files[b] + tail)
  {
    assert b !in [a];
    assert [a] + [b] == [a, b];
    NoInclusions(files, files[b], [a, b]);
    assert Include(files, b, [a]) == Ok(files[b]);
    IncludeLineReplaced(files, b, rest, [a]);
  }

  /**
   * Cycles are looked for along the chain only: a file included twice by
   * the same parent is inlined twice.
   */
  lemma IncludedTwice(files: map<string, string>, a: string, b: string)
    requires '\n' !in b && (b == [] || b[|b| - 1] != '\r') && a != b
    requires a in files && b in files && '#' !in files[b]
    requires files[a] == "#include " + b + "\n" + "#include " + b + "\n"
    ensures Include(files, a, []) == Ok(files[b] + files[b])
  {
    var body := files[b];
    var line := "#include " + b + "\n";
    assert line + [] == line;
    IncludedOnce(files, a, b, []);
    assert IncludeText(files, [], [a]) == Ok([]);
    assert body + [] == body;
    IncludedOnce(files, a, b, line);
    assert files[a] == line + line by {
      Assoc(line, "#include ", b);
      Assoc(line, "#include " + b, "\n");
    }
    assert [] + [a] == [a];
  }

  /*
   * The final substitution
   */

  /**
   * The re.sub of expand_repl over the text: each reference is replaced
   * by the definition's value as it is, without a further scan; a
   * reference to an undefined name is an error.
   */
  function Substitute(ts: seq<Token>, values: map<string, string>): Result<string>
  {
    if ts == [] then Ok([])
    else
      var head: Result<string> :=
        match ts[0]
        case Lit(c) => Ok([c])
        case Ref(name) => if name in values then Ok(values[name]) else Err(Undefined(name));
      if head.Err? then head
      else
        match Substitute(ts[1..], values)
        case Err(e) => Err(e)
        case Ok(tail) => Ok(head.value + tail)
  }

  /** Every reference among the tokens names a definition. */
  predicate AllDefined(ts: seq<Token>, values: map<string, string>)
  {
    forall i :: 0 <= i < |ts| && ts[i].Ref? ==> ts[i].name in values
  }

  /**
   * The substitution succeeds exactly when every reference names a
   * definition, and when it fails it reports the first name that does not.
   */
  lemma {:induction false} SubstituteDefined(ts: seq<Token>, values: map<string, string>)
    ensures Substitute(ts, values).Ok? <==> AllDefined(ts, values)
    ensures Substitute(ts, values).Err? ==>
              exists i :: 0 <= i < |ts| && ts[i].Ref? && ts[i].name !in values
                          && Substitute(ts, values).error == Undefined(ts[i].name)
                          && AllDefined(ts[..i], values)
  {
    if ts != [] {
      SubstituteDefined(ts[1..], values);
      if AllDefined(ts, values) {
        assert AllDefined(ts[1..], values) by {
          forall i | 0 <= i < |ts[1..]| && ts[1..][i].Ref? ensures ts[1..][i].name in values {
            assert ts[1..][i] == ts[i + 1];
          }
        }
      } else if ts[0].Ref? && ts[0].name !in values {
        assert ts[..0] == [];
      } else {
        assert !AllDefined(ts[1..], values);
        var j :| 0 <= j < |ts[1..]| && ts[1..][j].Ref? && ts[1..][j].name !in values
                 && Substitute(ts[1..], values).error == Undefined(ts[1..][j].name)
                 && AllDefined(ts[1..][..j], values);
        assert ts[j + 1] == ts[1..][j];
        assert AllDefined(ts[..j + 1], values) by {
          forall i | 0 < i <= j && ts[i].Ref? ensures ts[i].name in values {
            assert ts[i] == ts[1..][..j][i - 1];
          }
        }
      }
    }
  }

  /** Text without references is written out unchanged. */
  lemma {:induction false} SubstitutePlain(ts: seq<Token>, values: map<string, string>)
    requires forall i :: 0 <= i < |ts| ==> ts[i].Lit?
    ensures Substitute(ts, values) == Ok(Literals(ts))
  {
    if ts != [] {
      assert forall i :: 0 <= i < |ts[1..]| ==> ts[1..][i].Lit?;
      SubstitutePlain(ts[1..], values);
    }
  }

  /**
   * With every definition expanded, the final substitution puts in each
   * reference the full expansion of the name it refers to, and fails on
   * the same undefined name as the plain expansion would.
   */
  lemma {:induction false} SubstituteResolves(d: map<string, string>, ts: seq<Token>)
    requires Resolvable(d)
    ensures Substitute(ts, Resolved(d)) == ResolveTokens(d, ts, [])
  {
    if ts != [] {
      SubstituteResolves(d, ts[1..]);
      assert Elems([]) == {};
    }
  }

  /*
   * The whole script
   */

  /**
   * expand.py FILENAME: include the files, take the definitions out of the
   * text, expand every definition in order, then substitute the references
   * left in the text.  The first error met stops the run.  When every
   * definition is clean and resolves, the output is the text with every
   * reference fully expanded; when a clean definition does not resolve,
   * because it names an undefined definition or reaches itself, the run
   * fails.  A file with neither '#' nor '%' comes out as it went in.  The
   * include pass is the corrected one: a CRLF `#include` line names the
   * file without its '\r' (IncludedName, not IncludedNameAsWritten).
   */
  method Preprocess(files: map<string, string>, filename: string) returns (r: Result<string>)
    ensures Include(files, filename, []).Err? ==> r == Err(Include(files, filename, []).error)
    ensures Include(files, filename, []).Ok? ==>
              var p := DefinePass(Include(files, filename, []).value, true, Defs([], map[]), []);
              && (Clean(p.defs.values) && Resolvable(p.defs.values) ==>
                    r == ResolveTokens(p.defs.values, Scan(p.text), []))
              && (Clean(p.defs.values) && !Resolvable(p.defs.values) ==> r.Err?)
    ensures filename in files && '#' !in files[filename] && '%' !in files[filename] ==>
              r == Ok(files[filename])
  {
    if filename in files && '#' !in files[filename] && '%' !in files[filename] {
      PlainFileKept(files, filename);
    }
    var included := Include(files, filename, []);
    if included.Err? {
      return Err(included.error);
    }
    var p := DefinePass(included.value, true, Defs([], map[]), []);
    var expanded := ExpandAll(p.defs);
    if expanded.Err? {
      return Err(expanded.error);
    }
    r := Substitute(Scan(p.text), expanded.value.values);
    if Clean(p.defs.values) && Resolvable(p.defs.values) {
      SubstituteResolves(p.defs.values, Scan(p.text));
    }
  }

  /** A file with neither '#' nor '%' passes every stage unchanged. */
  lemma PlainFileKept(files: map<string, string>, filename: string)
    requires filename in files && '#' !in files[filename] && '%' !in files[filename]
    ensures Include(files, filename, []) == Ok(files[filename])
    ensures var p := DefinePass(files[filename], true, Defs([], map[]), []);
            && p == DefineOutcome(files[filename], Defs([], map[]))
            && Substitute(Scan(p.text), map[]) == Ok(files[filename])
  {
    var text := files[filename];
    NoInclusions(files, text, [] + [filename]);
    NoDefinitions(text, true, Defs([], map[]), []);
    assert [] + text == text;
    ScanPlain(text);
    SubstitutePlain(Scan(text), map[]);
  }
}
