/**
 * The attribute parser shared by both engines (lib/Parser.js:36 and
 * lib/Parser.js:123-146; node-htmlparser.js:59 and node-htmlparser.js:137-155).
 *
 * The source drives the global regular expression
 *   ([^=<>"'\s]+)\s*=\s*"([^"]*)" | ([^=<>"'\s]+)\s*=\s*'([^']*)'
 *   | ([^=<>"'\s]+)\s*=\s*([^'"\s]+) | ([^=<>"'\s\/]+)
 * with `exec`, starting at `lastIndex = 0` and resuming where the previous
 * match ended. Here that regular expression is an explicit scanner over
 * positions of the attribute text: at each position the four alternatives are
 * tried in order, and the leftmost position where one of them matches wins.
 * Every quantifier in the expression is followed by a character its own class
 * excludes, so backtracking never changes a match and each run is maximal.
 */
module Attributes {
  import opened Markup

  /** An attribute name in the first three alternatives: not `=`, `<`, `>`, a quote or a space. */
  predicate IsNameChar(c: char) {
    c != '=' && c != '<' && c != '>' && c != '"' && c != '\'' && !IsSpace(c)
  }

  /** A bare attribute name (fourth alternative) also excludes `/`. */
  predicate IsBareNameChar(c: char) {
    IsNameChar(c) && c != '/'
  }

  /** An unquoted value: not a quote and not a space. */
  predicate IsValueChar(c: char) {
    c != '\'' && c != '"' && !IsSpace(c)
  }

  /** The character classes the expression repeats. */
  datatype CharClass = NameChars | BareNameChars | ValueChars | Spaces

  predicate InClass(c: char, k: CharClass) {
    match k
    case NameChars => IsNameChar(c)
    case BareNameChars => IsBareNameChar(c)
    case ValueChars => IsValueChar(c)
    case Spaces => IsSpace(c)
  }

  /** End of the longest run of class-`k` characters of `s` that starts at `i`. */
  function Skip(s: string, i: nat, k: CharClass): (j: nat)
    requires i <= |s|
    ensures i <= j <= |s|
    decreases |s| - i
  {
    if i == |s| || !InClass(s[i], k) then i else Skip(s, i + 1, k)
  }

  /** End of the run `[^q]*` that starts at `i`: the next `q`, or `|s|`. */
  function Find(s: string, i: nat, q: char): (j: nat)
    requires i <= |s|
    ensures i <= j <= |s|
    decreases |s| - i
  {
    if i == |s| || s[i] == q then i else Find(s, i + 1, q)
  }

  datatype Attrib = Attrib(name: string, value: string)

  /** A match: the attribute found and the position just after the matched text. */
  datatype Found = Found(attr: Attrib, end: nat)

  /**
   * `name \s* = \s*` at position `i`: the end of the name and the position
   * of the value after the `=` and its spaces.
   */
  function NameEquals(s: string, i: nat): (r: Option<(nat, nat)>)
    requires i <= |s|
    ensures r.Some? ==> i < r.value.0 < r.value.1 <= |s|
  {
    var n := Skip(s, i, NameChars);
    var e := Skip(s, n, Spaces);
    if n == i || e == |s| || s[e] != '=' then None
    else Some((n, Skip(s, e + 1, Spaces)))
  }

  /** First and second alternatives: a value between two quotes `q`. */
  function QuotedAt(s: string, i: nat, q: char): (r: Option<Found>)
    requires i <= |s|
    ensures r.Some? ==> i < r.value.end <= |s|
  {
    match NameEquals(s, i)
    case None => None
    case Some((n, v)) =>
      if v == |s| || s[v] != q then None
      else
        var c := Find(s, v + 1, q);
        if c == |s| then None else Some(Found(Attrib(s[i..n], s[v + 1..c]), c + 1))
  }

  /** Third alternative: an unquoted value. */
  function UnquotedAt(s: string, i: nat): (r: Option<Found>)
    requires i <= |s|
    ensures r.Some? ==> i < r.value.end <= |s|
  {
    match NameEquals(s, i)
    case None => None
    case Some((n, v)) =>
      var c := Skip(s, v, ValueChars);
      if c == v then None else Some(Found(Attrib(s[i..n], s[v..c]), c))
  }

  /** Fourth alternative: a bare name, whose value is the name itself. */
  function BareAt(s: string, i: nat): (r: Option<Found>)
    requires i <= |s|
    ensures r.Some? ==> i < r.value.end <= |s|
  {
    var n := Skip(s, i, BareNameChars);
    if n == i then None else Some(Found(Attrib(s[i..n], s[i..n]), n))
  }

  /** The four alternatives tried in order at position `i`. */
  function MatchAt(s: string, i: nat): (r: Option<Found>)
    requires i <= |s|
    ensures r.Some? ==> i < r.value.end <= |s|
  {
    var m1 := QuotedAt(s, i, '"');
    if m1.Some? then m1 else
    var m2 := QuotedAt(s, i, '\'');
    if m2.Some? then m2 else
    var m3 := UnquotedAt(s, i);
    if m3.Some? then m3 else BareAt(s, i)
  }

  /** One `exec` call with `lastIndex = i`: the leftmost match at or after `i`. */
  function Exec(s: string, i: nat): (r: Option<Found>)
    requires i <= |s|
    ensures r.Some? ==> i < r.value.end <= |s|
    decreases |s| - i
  {
    if i == |s| then None
    else
      var m := MatchAt(s, i);
      if m.Some? then m else Exec(s, i + 1)
  }

  /** Every match of the `exec` loop from position `i`, in order. */
  function Matches(s: string, i: nat): seq<Attrib>
    requires i <= |s|
    decreases |s| - i
  {
    match Exec(s, i)
    case None => []
    case Some(f) => [f.attr] + Matches(s, f.end)
  }

  /**
   * The one key a plain object does not store: assigning a string to
   * `__proto__` goes to the setter inherited from `Object.prototype`, which
   * ignores anything that is not an object.
   */
  const ProtoKey := "__proto__"

  /** `element.attribs[name] = value` for one match. */
  function Store(m: map<string, string>, a: Attrib): map<string, string> {
    if a.name == ProtoKey then m else m[a.name := a.value]
  }

  /** `element.attribs[name] = value` for each match in order: later keys overwrite earlier ones. */
  function Assign(m: map<string, string>, attrs: seq<Attrib>): map<string, string>
    decreases |attrs|
  {
    if attrs == [] then m else Assign(Store(m, attrs[0]), attrs[1..])
  }

  lemma AssignCons(m: map<string, string>, a: Attrib, rest: seq<Attrib>)
    ensures Assign(m, [a] + rest) == Assign(Store(m, a), rest)
  {
    assert ([a] + rest)[1..] == rest;
  }

  /** The text after the first whitespace-delimited word of `data` (`attribRaw`). */
  function AttribRaw(data: string): string {
    data[|FirstWord(data)|..]
  }

  /**
   * The `attribs` property after the attribute loop has run on an element: the
   * property is created on the first match only, so it stays as it was when
   * nothing matches.
   */
  function AttribsAfter(e: Element): Option<map<string, string>> {
    var found := Matches(AttribRaw(e.data), 0);
    if found == [] then e.attribs else Some(Assign(e.attribs.GetOr(map[]), found))
  }

  lemma MatchesUnfold(s: string, i: nat)
    requires i <= |s|
    ensures Exec(s, i).None? ==> Matches(s, i) == []
    ensures Exec(s, i).Some? ==> Matches(s, i) == [Exec(s, i).value.attr] + Matches(s, Exec(s, i).value.end)
  {
  }

  /**
   * The attribute loop (lib/Parser.js:127-145, node-htmlparser.js:138-154):
   * repeated `exec` from `lastIndex`, each match stored into the map.
   */
  method AddAttribs(e: Element) returns (r: Element)
    ensures r == e.(attribs := AttribsAfter(e))
  {
    var tagName := FirstWord(e.data);
    var attribRaw := e.data[|tagName|..];
    r := e;
    if |attribRaw| < 1 {
      return;
    }
    var lastIndex := 0;
    ghost var found := Matches(attribRaw, 0);
    ghost var acc := e.attribs.GetOr(map[]);
    while true
      invariant 0 <= lastIndex <= |attribRaw|
      invariant lastIndex == 0 ==> r == e && acc == e.attribs.GetOr(map[])
      invariant lastIndex > 0 ==> r == e.(attribs := Some(acc)) && found != []
      invariant Assign(e.attribs.GetOr(map[]), found) == Assign(acc, Matches(attribRaw, lastIndex))
      decreases |attribRaw| - lastIndex
    {
      var m := Exec(attribRaw, lastIndex);
      if m.None? {
        break;
      }
      var attribs := r.attribs.GetOr(map[]);
      r := r.(attribs := Some(Store(attribs, m.value.attr)));
      MatchesUnfold(attribRaw, lastIndex);
      AssignCons(acc, m.value.attr, Matches(attribRaw, m.value.end));
      acc := Store(acc, m.value.attr);
      lastIndex := m.value.end;
    }
  }

  // ---------------------------------------------------------------------
  // Properties

  /**
   * Last write wins: the value stored under a key is the value of the last
   * match with that name; a match named `__proto__` stores nothing.
   */
  lemma {:induction false} AssignLastWins(m: map<string, string>, attrs: seq<Attrib>, i: nat)
    requires i < |attrs|
    requires forall j :: i < j < |attrs| ==> attrs[j].name != attrs[i].name
    ensures attrs[i].name != ProtoKey ==> attrs[i].name in Assign(m, attrs)
    ensures attrs[i].name != ProtoKey ==> Assign(m, attrs)[attrs[i].name] == attrs[i].value
    decreases |attrs|
  {
    if i == 0 {
      AssignKeeps(Store(m, attrs[0]), attrs[1..], attrs[0].name);
    } else {
      AssignLastWins(Store(m, attrs[0]), attrs[1..], i - 1);
    }
  }

  /** A key no match names keeps its old value (or stays absent); so does `__proto__`, whatever the matches. */
  lemma {:induction false} AssignKeeps(m: map<string, string>, attrs: seq<Attrib>, k: string)
    requires k == ProtoKey || forall j :: 0 <= j < |attrs| ==> attrs[j].name != k
    ensures k in Assign(m, attrs) <==> k in m
    ensures k in m ==> Assign(m, attrs)[k] == m[k]
    decreases |attrs|
  {
    if attrs != [] {
      AssignKeeps(Store(m, attrs[0]), attrs[1..], k);
    }
  }

  /** Every key of the result is an old key or the name of some match. */
  lemma {:induction false} AssignKeys(m: map<string, string>, attrs: seq<Attrib>)
    ensures forall k :: k in Assign(m, attrs) ==> k in m || exists j :: 0 <= j < |attrs| && attrs[j].name == k
    decreases |attrs|
  {
    if attrs != [] {
      AssignKeys(Store(m, attrs[0]), attrs[1..]);
      forall k | k in Assign(m, attrs)
        ensures k in m || exists j :: 0 <= j < |attrs| && attrs[j].name == k
      {
        var m' := Store(m, attrs[0]);
        assert k in m' || exists j :: 0 <= j < |attrs[1..]| && attrs[1..][j].name == k;
        if k !in m && k != attrs[0].name {
          var j :| 0 <= j < |attrs[1..]| && attrs[1..][j].name == k;
          assert attrs[j + 1].name == k;
        }
      }
    }
  }

  /**
   * `exec` finds the leftmost match: it is the match at some position `p` at
   * or after `i`, and no alternative matches anywhere between `i` and `p`;
   * when it finds nothing, no alternative matches at any position.
   */
  lemma {:induction false} ExecLeftmost(s: string, i: nat)
    requires i <= |s|
    ensures Exec(s, i).None? ==> forall q :: i <= q < |s| ==> MatchAt(s, q).None?
    ensures Exec(s, i).Some? ==>
      exists p :: i <= p < |s| && MatchAt(s, p) == Exec(s, i) && forall q :: i <= q < p ==> MatchAt(s, q).None?
    decreases |s| - i
  {
    if i < |s| && MatchAt(s, i).None? {
      ExecLeftmost(s, i + 1);
      if Exec(s, i).Some? {
        var p :| i + 1 <= p < |s| && MatchAt(s, p) == Exec(s, i)
          && forall q :: i + 1 <= q < p ==> MatchAt(s, q).None?;
        assert forall q :: i <= q < p ==> MatchAt(s, q).None?;
      }
    } else if i < |s| {
      assert MatchAt(s, i) == Exec(s, i);
    }
  }

  /** No alternative matches at a space, so whitespace alone holds no attribute. */
  lemma {:induction false} NoMatchInSpace(s: string, i: nat)
    requires i <= |s|
    requires forall q :: i <= q < |s| ==> IsSpace(s[q])
    ensures Matches(s, i) == []
    decreases |s| - i
  {
    if i < |s| {
      NoMatchInSpace(s, i + 1);
      assert Exec(s, i) == Exec(s, i + 1);
    }
  }

  /** One attribute as it can be written in a tag. */
  datatype Source =
    | DoubleQuoted(name: string, value: string)
    | SingleQuoted(name: string, value: string)
    | Unquoted(name: string, value: string)
    | Bare(name: string)

  predicate WellFormed(a: Source) {
    && a.name != []
    && (forall i :: 0 <= i < |a.name| ==> IsNameChar(a.name[i]))
    && match a
       case DoubleQuoted(_, v) => forall i :: 0 <= i < |v| ==> v[i] != '"'
       case SingleQuoted(_, v) => forall i :: 0 <= i < |v| ==> v[i] != '\''
       case Unquoted(_, v) => v != [] && forall i :: 0 <= i < |v| ==> IsValueChar(v[i])
       case Bare(n) => forall i :: 0 <= i < |n| ==> n[i] != '/'
  }

  /** The text of one attribute, preceded by one space. */
  function Written(a: Source): string {
    match a
    case DoubleQuoted(n, v) => " " + n + "=\"" + v + "\""
    case SingleQuoted(n, v) => " " + n + "='" + v + "'"
    case Unquoted(n, v) => " " + n + "=" + v
    case Bare(n) => " " + n
  }

  function Render(attrs: seq<Source>): string {
    if attrs == [] then "" else Written(attrs[0]) + Render(attrs[1..])
  }

  /** What the parser stores for an attribute: a bare name maps to itself. */
  function Parsed(a: Source): Attrib {
    match a
    case Bare(n) => Attrib(n, n)
    case _ => Attrib(a.name, a.value)
  }

  function ParsedAll(attrs: seq<Source>): (r: seq<Attrib>)
    ensures |r| == |attrs|
    ensures forall i :: 0 <= i < |attrs| ==> r[i] == Parsed(attrs[i])
  {
    if attrs == [] then [] else [Parsed(attrs[0])] + ParsedAll(attrs[1..])
  }

  /** What may follow an attribute in a rendering: nothing, or a space and a name character. */
  predicate GoodNextAt(s: string, j: nat) {
    j == |s| || (j + 1 < |s| && s[j] == ' ' && IsNameChar(s[j + 1]))
  }

  /** `Skip` stops exactly at the end of a run of class-`k` characters. */
  lemma {:induction false} SkipExact(s: string, i: nat, j: nat, k: CharClass)
    requires i <= j <= |s|
    requires forall t :: i <= t < j ==> InClass(s[t], k)
    requires j == |s| || !InClass(s[j], k)
    ensures Skip(s, i, k) == j
    decreases j - i
  {
    if i < j {
      SkipExact(s, i + 1, j, k);
    }
  }

  lemma {:induction false} FindExact(s: string, i: nat, j: nat, q: char)
    requires i <= j < |s|
    requires forall t :: i <= t < j ==> s[t] != q
    requires s[j] == q
    ensures Find(s, i, q) == j
    decreases j - i
  {
    if i < j {
      FindExact(s, i + 1, j, q);
    }
  }

  /** No alternative matches at a space, so `exec` moves past it. */
  lemma ExecSkipsSpace(s: string, i: nat)
    requires i < |s| && IsSpace(s[i])
    ensures Exec(s, i) == Exec(s, i + 1)
  {
  }

  /** The name and the `=` of a written attribute, followed directly by a non-space. */
  lemma NameEqualsWritten(s: string, i: nat, n: string)
    requires n != [] && forall t :: 0 <= t < |n| ==> IsNameChar(n[t])
    requires i + |n| + 1 < |s| && s[i..i + |n|] == n
    requires s[i + |n|] == '=' && !IsSpace(s[i + |n| + 1])
    ensures NameEquals(s, i) == Some((i + |n|, i + |n| + 1))
  {
    forall t | i <= t < i + |n|
      ensures InClass(s[t], NameChars)
    {
      assert s[t] == s[i..i + |n|][t - i];
    }
    SkipExact(s, i, i + |n|, NameChars);
  }

  /** A piece of `w` found at offset `off` inside a copy of `w` at position `i` of `s`. */
  lemma SliceIn(s: string, i: nat, w: string, off: nat, piece: string)
    requires i + |w| <= |s| && s[i..i + |w|] == w
    requires off + |piece| <= |w| && w[off..off + |piece|] == piece
    ensures s[i + off..i + off + |piece|] == piece
  {
    forall t | 0 <= t < |piece|
      ensures s[i + off..i + off + |piece|][t] == piece[t]
    {
      assert s[i + off + t] == s[i..i + |w|][off + t];
      assert piece[t] == w[off..off + |piece|][t];
    }
  }

  /** The quoted value of a written attribute, from its opening quote at `o`. */
  lemma QuotedValue(s: string, o: nat, v: string, q: char)
    requires (forall t :: 0 <= t < |v| ==> v[t] != q)
    requires o + |v| + 1 < |s| && s[o] == q && s[o + 1..o + 1 + |v|] == v && s[o + 1 + |v|] == q
    ensures Find(s, o + 1, q) == o + 1 + |v|
  {
    forall t | o + 1 <= t < o + 1 + |v|
      ensures s[t] != q
    {
      assert s[t] == s[o + 1..o + 1 + |v|][t - (o + 1)];
    }
    FindExact(s, o + 1, o + 1 + |v|, q);
  }

  lemma QuotedWritten(s: string, i: nat, n: string, v: string, q: char)
    requires n != [] && forall t :: 0 <= t < |n| ==> IsNameChar(n[t])
    requires q == '"' || q == '\''
    requires forall t :: 0 <= t < |v| ==> v[t] != q
    requires i + |n| + |v| + 4 <= |s| && s[i..i + |n| + |v| + 4] == [' '] + n + ['=', q] + v + [q]
    ensures QuotedAt(s, i + 1, q) == Some(Found(Attrib(n, v), i + |n| + |v| + 4))
  {
    var p := i + 1;
    var o := p + |n| + 1;
    QuotedLayout(s, i, n, v, q);
    NameEqualsWritten(s, p, n);
    QuotedValue(s, o, v, q);
    assert NameEquals(s, p) == Some((p + |n|, o));
    assert s[o] == q && Find(s, o + 1, q) == o + 1 + |v| < |s|;
    assert s[p..p + |n|] == n && s[o + 1..o + 1 + |v|] == v;
  }

  /** Where the pieces of a written quoted attribute sit in `s`. */
  lemma QuotedLayout(s: string, i: nat, n: string, v: string, q: char)
    requires i + |n| + |v| + 4 <= |s| && s[i..i + |n| + |v| + 4] == [' '] + n + ['=', q] + v + [q]
    ensures s[i + 1..i + 1 + |n|] == n && s[i + 1 + |n|] == '=' && s[i + 2 + |n|] == q
    ensures s[i + 3 + |n|..i + 3 + |n| + |v|] == v && s[i + 3 + |n| + |v|] == q
  {
    var w := [' '] + n + ['=', q] + v + [q];
    assert w[1..1 + |n|] == n;
    SliceIn(s, i, w, 1, n);
    assert s[i + 1 + |n|] == s[i..i + |w|][1 + |n|];
    assert s[i + 2 + |n|] == s[i..i + |w|][2 + |n|];
    assert s[i + 3 + |n| + |v|] == s[i..i + |w|][3 + |n| + |v|];
    assert w[3 + |n|..3 + |n| + |v|] == v;
    SliceIn(s, i, w, 3 + |n|, v);
  }

  lemma UnquotedWritten(s: string, i: nat, n: string, v: string)
    requires n != [] && forall t :: 0 <= t < |n| ==> IsNameChar(n[t])
    requires v != [] && forall t :: 0 <= t < |v| ==> IsValueChar(v[t])
    requires i + |n| + |v| + 2 <= |s| && s[i..i + |n| + |v| + 2] == [' '] + n + ['='] + v
    requires GoodNextAt(s, i + |n| + |v| + 2)
    ensures QuotedAt(s, i + 1, '"') == None && QuotedAt(s, i + 1, '\'') == None
    ensures UnquotedAt(s, i + 1) == Some(Found(Attrib(n, v), i + |n| + |v| + 2))
  {
    var p := i + 1;
    var o := p + |n| + 1;
    UnquotedLayout(s, i, n, v);
    assert s[o] == v[0];
    NameEqualsWritten(s, p, n);
    UnquotedValue(s, o, v);
    assert NameEquals(s, p) == Some((p + |n|, o));
    assert s[p..p + |n|] == n && s[o..o + |v|] == v;
  }

  /** Where the pieces of a written unquoted attribute sit in `s`. */
  lemma UnquotedLayout(s: string, i: nat, n: string, v: string)
    requires i + |n| + |v| + 2 <= |s| && s[i..i + |n| + |v| + 2] == [' '] + n + ['='] + v
    ensures s[i + 1..i + 1 + |n|] == n && s[i + 1 + |n|] == '='
    ensures s[i + 2 + |n|..i + 2 + |n| + |v|] == v
  {
    var w := [' '] + n + ['='] + v;
    assert w[1..1 + |n|] == n;
    SliceIn(s, i, w, 1, n);
    assert s[i + 1 + |n|] == s[i..i + |w|][1 + |n|];
    assert w[2 + |n|..2 + |n| + |v|] == v;
    SliceIn(s, i, w, 2 + |n|, v);
  }

  lemma UnquotedValue(s: string, o: nat, v: string)
    requires forall t :: 0 <= t < |v| ==> IsValueChar(v[t])
    requires o + |v| <= |s| && s[o..o + |v|] == v && GoodNextAt(s, o + |v|)
    ensures Skip(s, o, ValueChars) == o + |v|
  {
    forall t | o <= t < o + |v|
      ensures InClass(s[t], ValueChars)
    {
      assert s[t] == s[o..o + |v|][t - o];
    }
    SkipExact(s, o, o + |v|, ValueChars);
  }

  lemma BareWritten(s: string, i: nat, n: string)
    requires n != [] && forall t :: 0 <= t < |n| ==> IsBareNameChar(n[t])
    requires i + |n| + 1 <= |s| && s[i..i + |n| + 1] == [' '] + n
    requires GoodNextAt(s, i + |n| + 1)
    ensures MatchAt(s, i + 1) == Some(Found(Attrib(n, n), i + |n| + 1))
  {
    var w := [' '] + n;
    var p := i + 1;
    assert w[1..1 + |n|] == n;
    SliceIn(s, i, w, 1, n);
    forall t | p <= t < p + |n|
      ensures InClass(s[t], NameChars) && InClass(s[t], BareNameChars)
    {
      assert s[t] == s[p..p + |n|][t - p];
    }
    SkipExact(s, p, p + |n|, NameChars);
    SkipExact(s, p, p + |n|, BareNameChars);
    if p + |n| < |s| {
      SkipExact(s, p + |n|, p + |n| + 1, Spaces);
    }
    assert NameEquals(s, p) == None;
  }

  /** The alternative that matches a written attribute, just after its leading space. */
  lemma MatchAtWritten(s: string, i: nat, a: Source)
    requires WellFormed(a)
    requires i + |Written(a)| <= |s| && s[i..i + |Written(a)|] == Written(a)
    requires GoodNextAt(s, i + |Written(a)|)
    ensures MatchAt(s, i + 1) == Some(Found(Parsed(a), i + |Written(a)|))
  {
    match a
    case DoubleQuoted(n, v) =>
      assert Written(a) == [' '] + n + ['=', '"'] + v + ['"'];
      QuotedWritten(s, i, n, v, '"');
    case SingleQuoted(n, v) =>
      assert Written(a) == [' '] + n + ['=', '\''] + v + ['\''];
      QuotedWritten(s, i, n, v, '\'');
      SingleQuotedNotDouble(s, i, n, v);
    case Unquoted(n, v) =>
      assert Written(a) == [' '] + n + ['='] + v;
      UnquotedWritten(s, i, n, v);
    case Bare(n) =>
      assert Written(a) == [' '] + n;
      BareWritten(s, i, n);
  }

  lemma SingleQuotedNotDouble(s: string, i: nat, n: string, v: string)
    requires n != [] && forall t :: 0 <= t < |n| ==> IsNameChar(n[t])
    requires i + |n| + |v| + 4 <= |s| && s[i..i + |n| + |v| + 4] == [' '] + n + ['=', '\''] + v + ['\'']
    ensures QuotedAt(s, i + 1, '"') == None
  {
    var w := [' '] + n + ['=', '\''] + v + ['\''];
    var p := i + 1;
    assert w[1..1 + |n|] == n;
    SliceIn(s, i, w, 1, n);
    assert s[p + |n|] == s[i..i + |w|][1 + |n|];
    assert s[p + |n| + 1] == s[i..i + |w|][2 + |n|];
    NameEqualsWritten(s, p, n);
  }

  /** `exec` at the space before a written attribute finds exactly that attribute and stops after it. */
  lemma ExecWritten(s: string, i: nat, a: Source)
    requires WellFormed(a)
    requires i + |Written(a)| <= |s| && s[i..i + |Written(a)|] == Written(a)
    requires GoodNextAt(s, i + |Written(a)|)
    ensures Exec(s, i) == Some(Found(Parsed(a), i + |Written(a)|))
  {
    assert s[i] == s[i..i + |Written(a)|][0];
    ExecSkipsSpace(s, i);
    MatchAtWritten(s, i, a);
  }

  /** The matches from the space before a written attribute: that attribute, then the matches after it. */
  lemma MatchesWritten(s: string, i: nat, a: Source)
    requires WellFormed(a)
    requires i + |Written(a)| <= |s| && s[i..i + |Written(a)|] == Written(a)
    requires GoodNextAt(s, i + |Written(a)|)
    ensures Matches(s, i) == [Parsed(a)] + Matches(s, i + |Written(a)|)
  {
    ExecWritten(s, i, a);
    MatchesUnfold(s, i);
  }

  lemma WrittenStart(a: Source)
    requires WellFormed(a)
    ensures |Written(a)| >= 2 && Written(a)[0] == ' ' && Written(a)[1] == a.name[0]
  {
  }

  /** A rendering is empty, or starts with the space and name of an attribute. */
  predicate GoodStart(t: string) {
    t == [] || (|t| >= 2 && t[0] == ' ' && IsNameChar(t[1]))
  }

  lemma RenderedStart(attrs: seq<Source>)
    requires attrs == [] || WellFormed(attrs[0])
    ensures GoodStart(Render(attrs))
  {
    if attrs != [] {
      WrittenStart(attrs[0]);
    }
  }

  /** A rendering is its first attribute followed by the rendering of the rest. */
  lemma RenderedTail(attrs: seq<Source>)
    requires attrs != [] && (|attrs| > 1 ==> WellFormed(attrs[1]))
    ensures Render(attrs) == Written(attrs[0]) + Render(attrs[1..]) && GoodStart(Render(attrs[1..]))
  {
    assert attrs[1..] != [] ==> attrs[1..][0] == attrs[1];
    RenderedStart(attrs[1..]);
  }

  lemma GoodNextShift(s: string, j: nat, t: string)
    requires j <= |s| && s[j..] == t && GoodStart(t)
    ensures GoodNextAt(s, j)
  {
    if t != [] {
      assert s[j] == t[0] && s[j + 1] == t[1];
    }
  }

  /** A rendering is followed by nothing, or by the space and name of the next attribute. */
  lemma RenderedNext(s: string, j: nat, attrs: seq<Source>)
    requires attrs == [] || WellFormed(attrs[0])
    requires j <= |s| && s[j..] == Render(attrs)
    ensures GoodNextAt(s, j)
  {
    RenderedStart(attrs);
    GoodNextShift(s, j, Render(attrs));
  }

  /** Splitting the suffix `s[i..] == w + tail` at the end of `w`. */
  lemma SuffixSplit(s: string, i: nat, w: string, tail: string)
    requires i <= |s| && s[i..] == w + tail
    ensures i + |w| <= |s| && s[i..i + |w|] == w && s[i + |w|..] == tail
  {
    assert s[i..i + |w|] == s[i..][..|w|];
    assert s[i + |w|..] == s[i..][|w|..];
  }

  /** Round trip: parsing a rendering of well-formed attributes gives them back, in order. */
  lemma {:induction false} MatchesRendered(s: string, i: nat, attrs: seq<Source>)
    requires forall j :: 0 <= j < |attrs| ==> WellFormed(attrs[j])
    requires i <= |s| && s[i..] == Render(attrs)
    ensures Matches(s, i) == ParsedAll(attrs)
    decreases |attrs|
  {
    if attrs == [] {
      assert i == |s|;
    } else {
      var j := RenderedStep(s, i, attrs);
      WellFormedTail(attrs);
      MatchesRendered(s, j, attrs[1..]);
      assert ParsedAll(attrs) == [Parsed(attrs[0])] + ParsedAll(attrs[1..]);
    }
  }

  /** One attribute of a rendering: the match it gives, and where the rest of the rendering starts. */
  lemma RenderedStep(s: string, i: nat, attrs: seq<Source>) returns (j: nat)
    requires attrs != [] && WellFormed(attrs[0]) && (|attrs| > 1 ==> WellFormed(attrs[1]))
    requires i <= |s| && s[i..] == Render(attrs)
    ensures j <= |s| && s[j..] == Render(attrs[1..])
    ensures Matches(s, i) == [Parsed(attrs[0])] + Matches(s, j)
  {
    j := RenderedSplit(s, i, attrs);
    MatchesWritten(s, i, attrs[0]);
  }

  /** Where the first attribute of a rendering ends, and what follows it. */
  lemma RenderedSplit(s: string, i: nat, attrs: seq<Source>) returns (j: nat)
    requires attrs != [] && (|attrs| > 1 ==> WellFormed(attrs[1]))
    requires i <= |s| && s[i..] == Render(attrs)
    ensures j == i + |Written(attrs[0])| && j <= |s| && s[i..j] == Written(attrs[0])
    ensures s[j..] == Render(attrs[1..]) && GoodNextAt(s, j)
  {
    j := i + |Written(attrs[0])|;
    RenderedTail(attrs);
    SplitRendered(s, i, Written(attrs[0]), Render(attrs[1..]));
  }

  lemma WellFormedTail(attrs: seq<Source>)
    requires attrs != [] && forall k :: 0 <= k < |attrs| ==> WellFormed(attrs[k])
    ensures forall k :: 0 <= k < |attrs| - 1 ==> WellFormed(attrs[1..][k])
  {
    forall k | 0 <= k < |attrs| - 1
      ensures WellFormed(attrs[1..][k])
    {
      assert attrs[1..][k] == attrs[k + 1];
    }
  }

  /** Where a piece `w` in front of a rendering `t` ends, and what follows it. */
  lemma SplitRendered(s: string, i: nat, w: string, t: string)
    requires i <= |s| && s[i..] == w + t && GoodStart(t)
    ensures i + |w| <= |s| && s[i..i + |w|] == w
    ensures s[i + |w|..] == t && GoodNextAt(s, i + |w|)
  {
    SuffixSplit(s, i, w, t);
    GoodNextShift(s, i + |w|, t);
  }

  /**
   * The attributes of an element whose data is a tag name followed by
   * rendered attributes: the property stays as it was when nothing follows
   * the name, otherwise it holds every attribute in order, later duplicates
   * overwriting earlier ones.
   */
  lemma AttribsOfRendered(e: Element, tagName: string, attrs: seq<Source>)
    requires forall i :: 0 <= i < |attrs| ==> WellFormed(attrs[i])
    requires NoSpace(tagName) && e.data == tagName + Render(attrs)
    ensures AttribsAfter(e) ==
      if attrs == [] then e.attribs else Some(Assign(e.attribs.GetOr(map[]), ParsedAll(attrs)))
  {
    RenderedNext(Render(attrs), 0, attrs);
    FirstWordOf(tagName, Render(attrs));
    var raw := AttribRaw(e.data);
    assert raw[0..] == Render(attrs);
    MatchesRendered(raw, 0, attrs);
  }

  /** The attributes of `<a __proto__="x" id="y">`. */
  const ProtoSources := [DoubleQuoted(ProtoKey, "x"), DoubleQuoted("id", "y")]

  lemma ProtoWellFormed()
    ensures forall i :: 0 <= i < |ProtoSources| ==> WellFormed(ProtoSources[i])
  {
    assert WellFormed(ProtoSources[0]);
    assert WellFormed(ProtoSources[1]);
  }

  lemma ProtoRendered()
    ensures "a __proto__=\"x\" id=\"y\"" == "a" + Render(ProtoSources)
  {
    var attrs := ProtoSources;
    assert attrs[1..][1..] == [];
    assert Render(attrs[1..]) == Written(attrs[1]) + Render([]) == Written(attrs[1]);
    assert Render(attrs) == Written(attrs[0]) + Written(attrs[1]);
    assert Written(attrs[0]) == " __proto__=\"x\"" && Written(attrs[1]) == " id=\"y\"";
  }

  lemma ProtoAssigned()
    ensures Assign(map[], ParsedAll(ProtoSources)) == map["id" := "y"]
  {
    var found := [Attrib(ProtoKey, "x"), Attrib("id", "y")];
    assert ParsedAll(ProtoSources) == found;
    assert found[1..] == [Attrib("id", "y")] && found[1..][1..] == [];
    assert Assign(map[], found) == Assign(map[], found[1..]) == Assign(map["id" := "y"], []);
  }

  /**
   * `<a __proto__="x" id="y">`: the property is created by the first match,
   * but the `__proto__` assignment stores nothing, so only `id` is kept.
   */
  lemma ProtoAttribIgnored(e: Element)
    requires e.data == "a __proto__=\"x\" id=\"y\"" && e.attribs.None?
    ensures AttribsAfter(e) == Some(map["id" := "y"])
  {
    ProtoWellFormed();
    ProtoRendered();
    ProtoAssigned();
    AttribsOfRendered(e, "a", ProtoSources);
  }
}
