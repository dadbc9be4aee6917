/** Query strings of the form `k1=v1&k2=v2&...`. The portal URL is written as
    one literal in the program; this module gives the structured reading of
    such a string (its list of parameters) so that the URL's fields can be
    stated and recovered. */
module Query {
  import opened Wrappers
  import Text

  datatype Param = Param(key: string, value: string)

  function Render(p: Param): string {
    p.key + "=" + p.value
  }

  /** The parameters joined with `&`, in order. */
  function Join(ps: seq<Param>): string {
    if ps == [] then ""
    else if |ps| == 1 then Render(ps[0])
    else Render(ps[0]) + "&" + Join(ps[1..])
  }

  /** Index of the first `c` in `s`, or `|s|` when there is none. */
  function IndexOf(s: string, c: char): (k: nat)
    ensures k <= |s|
    ensures forall i :: 0 <= i < k ==> s[i] != c
    ensures k < |s| ==> s[k] == c
  {
    if s == [] then 0
    else if s[0] == c then 0
    else 1 + IndexOf(s[1..], c)
  }

  /** Splits one `key=value` at its first `=`; a missing `=` reads as an
      empty value. */
  function ParsePair(s: string): Param {
    var j := IndexOf(s, '=');
    if j < |s| then Param(s[..j], s[j + 1..]) else Param(s, "")
  }

  /** Splits a query at every `&` and each piece at its first `=`. */
  function Parse(q: string): (ps: seq<Param>)
    ensures |ps| >= 1
    decreases |q|
  {
    var i := IndexOf(q, '&');
    if i == |q| then [ParsePair(q)]
    else [ParsePair(q[..i])] + Parse(q[i + 1..])
  }

  /** A parameter whose text cannot be confused with the separators: no `&`
      anywhere and no `=` in the key. */
  predicate WellFormed(p: Param) {
    '&' !in p.key && '=' !in p.key && '&' !in p.value
  }

  /** The value of the first parameter named `key`. */
  function Lookup(ps: seq<Param>, key: string): Option<string> {
    if ps == [] then None
    else if ps[0].key == key then Some(ps[0].value)
    else Lookup(ps[1..], key)
  }

  /** `Lookup` finds the value at the first position holding the key. */
  lemma {:induction false} LookupFirst(ps: seq<Param>, key: string, i: nat)
    requires i < |ps| && ps[i].key == key
    requires forall j :: 0 <= j < i ==> ps[j].key != key
    ensures Lookup(ps, key) == Some(ps[i].value)
    decreases i
  {
    if i > 0 {
      LookupFirst(ps[1..], key, i - 1);
    }
  }

  /** When the first occurrence of `c` is the separator we put there, the
      search stops at it. */
  lemma {:induction false} IndexOfSeparator(a: string, c: char, b: string)
    requires c !in a
    ensures IndexOf(a + [c] + b, c) == |a|
    decreases |a|
  {
    if a != [] {
      assert (a + [c] + b)[1..] == a[1..] + [c] + b;
      IndexOfSeparator(a[1..], c, b);
    }
  }

  /** A string without `c` is searched to its end. */
  lemma {:induction false} IndexOfAbsent(s: string, c: char)
    requires c !in s
    ensures IndexOf(s, c) == |s|
    decreases |s|
  {
    if s != [] {
      IndexOfAbsent(s[1..], c);
    }
  }

  /** A rendered well-formed parameter reads back as itself. */
  lemma ParseRender(p: Param)
    requires WellFormed(p)
    ensures ParsePair(Render(p)) == p
  {
    IndexOfSeparator(p.key, '=', p.value);
    var s := Render(p);
    assert s[..|p.key|] == p.key;
    assert s[|p.key| + 1..] == p.value;
  }

  /** Round trip: parsing a joined list of well-formed parameters gives the
      list back, in order (including repeated keys). */
  lemma ParseJoin(ps: seq<Param>)
    requires ps != []
    requires forall i :: 0 <= i < |ps| ==> WellFormed(ps[i])
    ensures Parse(Join(ps)) == ps
  {
    var init, last := ps[..|ps| - 1], ps[|ps| - 1];
    SplitLast(ps);
    JoinIsBefore(ps);
    assert forall i :: 0 <= i < |init| ==> WellFormed(init[i]);
    AllWellFormedOf(init);
    ParseJoinBefore(init, Render(last));
    ParseSingle(last, Render(last));
  }

  lemma SplitLast(ps: seq<Param>)
    requires ps != []
    ensures ps == ps[..|ps| - 1] + [ps[|ps| - 1]]
  {
  }

  /** A join is its parameters but the last, each followed by `&`, then the
      last one. */
  lemma {:induction false} JoinIsBefore(ps: seq<Param>)
    requires ps != []
    ensures Join(ps) == JoinBefore(ps[..|ps| - 1], Render(ps[|ps| - 1]))
    decreases |ps|
  {
    if |ps| > 1 {
      JoinIsBefore(ps[1..]);
      assert ps[1..][..|ps[1..]| - 1] == ps[..|ps| - 1][1..];
    }
  }

  /** A query holding one rendered well-formed parameter parses as it. */
  lemma ParseSingle(p: Param, q: string)
    requires WellFormed(p) && q == Render(p)
    ensures Parse(q) == [p]
  {
    ParseRender(p);
    assert '&' !in q by {
      assert q == p.key + "=" + p.value;
    }
    IndexOfAbsent(q, '&');
  }

  /** A parameter with no `&` rendered in front of `&` and a rest parses
      as that parameter followed by the parse of the rest. */
  lemma ParseSplit(p: Param, rest: string)
    requires WellFormed(p)
    ensures Parse(Render(p) + "&" + rest) == [p] + Parse(rest)
  {
    var head := Render(p);
    ParseRender(p);
    assert '&' !in head by {
      assert head == p.key + "=" + p.value;
    }
    var q := head + "&" + rest;
    assert q == head + ['&'] + rest;
    IndexOfSeparator(head, '&', rest);
    assert q[..|head|] == head;
    assert q[|head| + 1..] == rest;
  }

  /** A joined list of two or more parameters, followed by `&` and a rest,
      is its first parameter, `&`, and the join of the others followed by
      the rest. */
  lemma JoinThenCons(ps: seq<Param>, rest: string)
    requires |ps| >= 2
    ensures Join(ps) + "&" + rest == Render(ps[0]) + "&" + (Join(ps[1..]) + "&" + rest)
  {
    var r0, j1 := Render(ps[0]), Join(ps[1..]);
    assert Join(ps) == r0 + "&" + j1;
    Text.AppendAssoc(r0 + "&" + j1, "&", rest);
    Text.AppendAssoc(r0 + "&", j1, "&" + rest);
    Text.AppendAssoc(j1, "&", rest);
  }

  /** The parameters, each followed by `&`, then `rest`: the same text as
      `Join(ps) + "&" + rest` (see `JoinBeforeIs`), built one parameter at a
      time so that the induction below never parses a concatenation. */
  function JoinBefore(ps: seq<Param>, rest: string): string {
    if ps == [] then rest else Render(ps[0]) + "&" + JoinBefore(ps[1..], rest)
  }

  lemma {:induction false} JoinBeforeIs(ps: seq<Param>, rest: string)
    requires ps != []
    ensures JoinBefore(ps, rest) == Join(ps) + "&" + rest
    decreases |ps|
  {
    if |ps| == 1 {
      assert JoinBefore(ps[1..], rest) == rest;
    } else {
      JoinBeforeIs(ps[1..], rest);
      JoinThenCons(ps, rest);
    }
  }

  /** Every parameter is well-formed, stated one parameter at a time. */
  predicate AllWellFormed(ps: seq<Param>) {
    ps == [] || (WellFormed(ps[0]) && AllWellFormed(ps[1..]))
  }

  lemma {:induction false} AllWellFormedOf(ps: seq<Param>)
    requires forall i :: 0 <= i < |ps| ==> WellFormed(ps[i])
    ensures AllWellFormed(ps)
    decreases |ps|
  {
    if ps != [] {
      assert forall i :: 0 <= i < |ps[1..]| ==> WellFormed(ps[1..][i]) by {
        forall i | 0 <= i < |ps[1..]| ensures WellFormed(ps[1..][i]) {
          assert ps[1..][i] == ps[i + 1];
        }
      }
      AllWellFormedOf(ps[1..]);
    }
  }

  /** Parsing well-formed parameters, each followed by `&`, then a rest,
      gives those parameters and then the parse of the rest. */
  lemma {:induction false} ParseJoinBefore(ps: seq<Param>, rest: string)
    requires AllWellFormed(ps)
    ensures Parse(JoinBefore(ps, rest)) == ps + Parse(rest)
    decreases |ps|
  {
    if ps != [] {
      ParseJoinBefore(ps[1..], rest);
      ParseStep(ps[0], JoinBefore(ps, rest), JoinBefore(ps[1..], rest), ps[1..], Parse(rest));
      assert ps == [ps[0]] + ps[1..];
    }
  }

  /** One step of `ParseJoinBefore`, over named strings and lists. */
  lemma ParseStep(p: Param, q: string, tail: string, qs: seq<Param>, r: seq<Param>)
    requires WellFormed(p) && q == Render(p) + "&" + tail
    requires Parse(tail) == qs + r
    ensures Parse(q) == [p] + qs + r
  {
    ParseSplit(p, tail);
  }

  /** Parsing well-formed parameters followed by `&` and anything else gives
      those parameters first, whatever the rest holds. */
  lemma ParseJoinThen(ps: seq<Param>, rest: string)
    requires ps != []
    requires forall i :: 0 <= i < |ps| ==> WellFormed(ps[i])
    ensures Parse(Join(ps) + "&" + rest) == ps + Parse(rest)
  {
    JoinBeforeIs(ps, rest);
    AllWellFormedOf(ps);
    ParseJoinBefore(ps, rest);
  }
}
