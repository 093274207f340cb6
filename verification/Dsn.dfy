/** The SQLite "file:" URI with its pragmas and lock mode as query parameters. */
module Dsn {
  import opened Delimited
  import opened Wrappers

  // ---------------------------------------------------------------- the path

  function EscapeChar(c: char): string {
    if c == '%' then "%25" else if c == '?' then "%3F" else if c == '#' then "%23" else [c]
  }

  /** escapePath. */
  function EscapePath(path: string): string {
    if path == "" then "" else EscapeChar(path[0]) + EscapePath(path[1..])
  }

  /** Three characters are escaped and every other one stays as it is, wherever it stands. */
  lemma EscapeExactly(c: char)
    ensures EscapePath("%") == "%25" && EscapePath("?") == "%3F" && EscapePath("#") == "%23"
    ensures c != '%' && c != '?' && c != '#' ==> EscapePath([c]) == [c]
  {
    assert [c][1..] == "" && EscapeChar(c) + "" == EscapeChar(c);
  }

  lemma {:induction false} EscapeJoins(a: string, b: string)
    ensures EscapePath(a + b) == EscapePath(a) + EscapePath(b)
  {
    if a == "" {
      assert a + b == b;
    } else {
      EscapeJoins(a[1..], b);
      EscapeCons(a[0], a[1..] + b);
      assert a + b == [a[0]] + (a[1..] + b);
      Regroup(EscapeChar(a[0]), EscapePath(a[1..]), EscapePath(b));
    }
  }

  lemma EscapeCons(c: char, rest: string)
    ensures EscapePath([c] + rest) == EscapeChar(c) + EscapePath(rest)
  {
    assert ([c] + rest)[1..] == rest;
  }

  lemma Regroup(a: string, b: string, c: string)
    ensures a + (b + c) == (a + b) + c
  {
  }

  /** No '?' or '#' of the path survives as structure. */
  lemma {:induction false} EscapedIsPlain(path: string)
    ensures '?' !in EscapePath(path) && '#' !in EscapePath(path)
  {
    if path == "" {
    } else {
      EscapedIsPlain(path[1..]);
    }
  }

  function HexDigit(c: char): (d: int)
    ensures d < 16
  {
    if '0' <= c <= '9' then (c - '0') as int
    else if 'A' <= c <= 'F' then (c - 'A') as int + 10
    else -1
  }

  /** The percent-decoding a URI reader applies. */
  function UnescapePath(s: string): string {
    if s == "" then ""
    else if s[0] == '%' && |s| >= 3 && HexDigit(s[1]) >= 0 && HexDigit(s[2]) >= 0
    then [(16 * HexDigit(s[1]) + HexDigit(s[2])) as char] + UnescapePath(s[3..])
    else [s[0]] + UnescapePath(s[1..])
  }

  /** The reader gets the path back. */
  lemma {:induction false} UnescapeEscape(path: string)
    ensures UnescapePath(EscapePath(path)) == path
  {
    if path == "" {
    } else {
      var c, rest := path[0], EscapePath(path[1..]);
      UnescapeEscape(path[1..]);
      var s := EscapeChar(c) + rest;
      assert s[|EscapeChar(c)|..] == rest;
      if c == '%' || c == '?' || c == '#' {
        assert s[0] == '%' && s[1] == EscapeChar(c)[1] && s[2] == EscapeChar(c)[2];
      }
      assert path == [c] + path[1..];
    }
  }

  lemma EscapeInjective(a: string, b: string)
    requires EscapePath(a) == EscapePath(b)
    ensures a == b
  {
    UnescapeEscape(a);
    UnescapeEscape(b);
  }

  // ---------------------------------------------------------------- pragmas

  /** The position of the first '='. */
  function CutAt(p: string): (k: nat)
    ensures k <= |p| && '=' !in p[..k] && (k < |p| ==> p[k] == '=')
  {
    if p == "" || p[0] == '=' then 0
    else
      var k := CutAt(p[1..]);
      assert p[..k + 1] == [p[0]] + p[1..][..k];
      k + 1
  }

  predicate Structural(c: char) { c == '(' || c == ')' || c == '&' || c == '#' }

  predicate ValidPragma(p: string) {
    var k := CutAt(p);
    0 < k < |p| - 1 && forall i :: 0 <= i < |p| ==> !Structural(p[i])
  }

  function Name(p: string): string requires ValidPragma(p) { p[..CutAt(p)] }
  function Value(p: string): string requires ValidPragma(p) { p[CutAt(p) + 1..] }

  /** One "_pragma=name(value)" parameter. */
  function Render(p: string): string
    requires ValidPragma(p)
  {
    "_pragma=" + Name(p) + "(" + Value(p) + ")"
  }

  /** The position of the first '('. */
  function ParenAt(s: string): (k: nat)
    ensures k <= |s| && '(' !in s[..k] && (k < |s| ==> s[k] == '(')
  {
    if s == "" || s[0] == '(' then 0
    else
      var k := ParenAt(s[1..]);
      assert s[..k + 1] == [s[0]] + s[1..][..k];
      k + 1
  }

  lemma ParenAtSplit(x: string, r: string)
    requires '(' !in x
    ensures ParenAt(x + ['('] + r) == |x|
    ensures (x + ['('] + r)[..|x|] == x && (x + ['('] + r)[|x| + 1..] == r
  {
    var s := x + ['('] + r;
    var k := ParenAt(s);
    assert s[|x|] == '(' && s[..|s|] == s;
    assert s == s[..k] + ['('] + s[k + 1..];
    SplitUnique(x, s[..k], '(', r, s[k + 1..]);
  }

  /** The pragma a driver reads from a "_pragma=name(value)" parameter. */
  function ReadPragma(item: string): string {
    if |item| < 8 then ""
    else
      var body := item[8..];
      var k := ParenAt(body);
      if k + 1 >= |body| then "" else body[..k] + "=" + body[k + 1..|body| - 1]
  }

  /** The driver reads back the pragma that was given. */
  lemma ReadRender(p: string)
    requires ValidPragma(p)
    ensures ReadPragma(Render(p)) == p
  {
    var n, v := Name(p), Value(p);
    assert p == n + "=" + v && '(' !in n;
    ParenAtSplit(n, v + ")");
    var body := Render(p)[8..];
    assert body == n + ['('] + (v + ")");
    assert body[|n| + 1..] == v + ")";
    assert body[|n| + 1..|body| - 1] == body[|n| + 1..][..|v|] == v;
  }

  lemma RenderInjective(p: string, q: string)
    requires ValidPragma(p) && ValidPragma(q) && Render(p) == Render(q)
    ensures p == q
  {
    ReadRender(p);
    ReadRender(q);
  }

  lemma RenderHasNoAmp(p: string)
    requires ValidPragma(p)
    ensures '&' !in Render(p) && |Render(p)| > 1 && Render(p)[1] == 'p'
  {
  }

  function Renders(ps: seq<string>): (r: seq<string>)
    requires forall p :: p in ps ==> ValidPragma(p)
    ensures |r| == |ps|
    ensures forall i :: 0 <= i < |r| ==> ValidPragma(ps[i]) && r[i] == Render(ps[i])
  {
    seq(|ps|, i requires 0 <= i < |ps| => assert ps[i] in ps; Render(ps[i]))
  }

  lemma RendersInjective(a: seq<string>, b: seq<string>)
    requires forall p :: p in a ==> ValidPragma(p)
    requires forall p :: p in b ==> ValidPragma(p)
    requires Renders(a) == Renders(b)
    ensures a == b
  {
    assert |a| == |Renders(a)| == |b|;
    forall i | 0 <= i < |a| ensures a[i] == b[i] {
      assert Renders(a)[i] == Renders(b)[i];
      RenderInjective(a[i], b[i]);
    }
  }

  // ---------------------------------------------------------------- the URI

  /** A URI with the given query parameters. */
  function Uri(path: string, items: seq<string>): string {
    "file:" + (EscapePath(path) + Query(items))
  }

  function Query(items: seq<string>): string { if items == [] then "" else ['?'] + Join(items, '&') }

  function Separator(items: seq<string>): char { if items == [] then '?' else '&' }

  /** Adding a parameter is appending it after the right separator. */
  lemma UriSnoc(path: string, items: seq<string>, x: string)
    ensures Uri(path, items + [x]) == Uri(path, items) + [Separator(items)] + x
  {
    QuerySnoc(items, x);
    var f, e, q, c := "file:", EscapePath(path), Query(items), [Separator(items)];
    assert f + (e + (q + c + x)) == (f + (e + q)) + c + x;
  }

  lemma QuerySnoc(items: seq<string>, x: string)
    ensures Query(items + [x]) == Query(items) + [Separator(items)] + x
  {
    if items == [] {
      assert items + [x] == [x];
    } else {
      JoinSnoc(items, x, '&');
      var j := Join(items, '&');
      assert ['?'] + (j + ['&'] + x) == (['?'] + j) + ['&'] + x;
    }
  }

  datatype DsnError = EmptyPath | InvalidPragma | InvalidTxLock

  function DSN(path: string, ps: seq<string>): Result<string, DsnError> {
    if path == "" then Err(EmptyPath)
    else if exists p :: p in ps && !ValidPragma(p) then Err(InvalidPragma)
    else Ok(Uri(path, Renders(ps)))
  }

  /** DSN, appending one parameter per turn after a '?' the first time and a '&' after that. */
  method BuildDSN(path: string, ps: seq<string>) returns (r: Result<string, DsnError>)
    ensures r == DSN(path, ps)
  {
    if path == "" {
      return Err(EmptyPath);
    }
    var b := "file:" + EscapePath(path);
    var first := true;
    assert b == Uri(path, []);
    for i := 0 to |ps|
      invariant forall p :: p in ps[..i] ==> ValidPragma(p)
      invariant first <==> i == 0
      invariant b == Uri(path, Renders(ps[..i]))
    {
      var p := ps[i];
      TakeSnoc(ps, i);
      if !ValidPragma(p) {
        assert p in ps;
        return Err(InvalidPragma);
      }
      RendersSnoc(ps[..i], p);
      UriSnoc(path, Renders(ps[..i]), Render(p));
      if first {
        b := b + ['?'];
        first := false;
      } else {
        b := b + ['&'];
      }
      b := b + Render(p);
    }
    assert ps[..|ps|] == ps;
    r := Ok(b);
  }

  lemma TakeSnoc(ps: seq<string>, i: nat)
    requires i < |ps|
    ensures ps[..i + 1] == ps[..i] + [ps[i]]
  {
  }

  lemma RendersSnoc(ps: seq<string>, p: string)
    requires (forall x :: x in ps ==> ValidPragma(x)) && ValidPragma(p)
    ensures Renders(ps + [p]) == Renders(ps) + [Render(p)]
  {
  }

  lemma ItemsAreFree(ps: seq<string>, tail: seq<string>)
    requires (forall p :: p in ps ==> ValidPragma(p)) && Free(tail, '&')
    ensures Free(Renders(ps) + tail, '&')
  {
    forall x | x in Renders(ps) + tail ensures '&' !in x {
      if x !in tail {
        var i :| 0 <= i < |ps| && Renders(ps)[i] == x;
        RenderHasNoAmp(ps[i]);
      }
    }
  }

  /** A URI holds a '?' exactly when it has parameters. */
  lemma {:induction false} QueryMark(path: string, items: seq<string>)
    ensures '?' in Uri(path, items) <==> items != []
    ensures '?' in EscapePath(path) + Query(items) <==> items != []
  {
    EscapedIsPlain(path);
    var body := EscapePath(path) + Query(items);
    if items != [] {
      assert body[|EscapePath(path)|] == '?';
      assert Uri(path, items)[5 + |EscapePath(path)|] == '?';
    }
  }

  /** A URI with parameters free of '&' determines its path and its parameters. */
  lemma UriInjective(p: string, a: seq<string>, q: string, b: seq<string>)
    requires Free(a, '&') && Free(b, '&') && Uri(p, a) == Uri(q, b)
    ensures p == q && a == b
  {
    assert Uri(p, a)[5..] == EscapePath(p) + Query(a) && Uri(q, b)[5..] == EscapePath(q) + Query(b);
    QueryMark(p, a);
    QueryMark(q, b);
    BodyInjective(p, a, q, b);
  }

  lemma QueryShape(x: string, items: seq<string>)
    requires items != []
    ensures x + Query(items) == x + ['?'] + Join(items, '&')
  {
  }

  lemma BodyInjective(p: string, a: seq<string>, q: string, b: seq<string>)
    requires Free(a, '&') && Free(b, '&') && (a == [] <==> b == [])
    requires EscapePath(p) + Query(a) == EscapePath(q) + Query(b)
    ensures p == q && a == b
  {
    var x, y := EscapePath(p), EscapePath(q);
    if a != [] {
      EscapedIsPlain(p);
      EscapedIsPlain(q);
      QueryShape(x, a);
      QueryShape(y, b);
      SplitUnique(x, y, '?', Join(a, '&'), Join(b, '&'));
      JoinInjective(a, b, '&');
    } else {
      assert x + Query(a) == x && y + Query(b) == y;
    }
    EscapeInjective(p, q);
  }

  /** Equal DSN strings come only from equal paths and equal pragma lists. */
  lemma DsnInjective(p: string, ps: seq<string>, q: string, qs: seq<string>)
    requires DSN(p, ps).Ok? && DSN(p, ps) == DSN(q, qs)
    ensures p == q && ps == qs
  {
    ItemsAreFree(ps, []);
    ItemsAreFree(qs, []);
    assert Renders(ps) + [] == Renders(ps) && Renders(qs) + [] == Renders(qs);
    UriInjective(p, Renders(ps), q, Renders(qs));
    RendersInjective(ps, qs);
  }

  // ---------------------------------------------------------------- the lock mode

  predicate ValidTxLock(s: string) {
    forall i :: 0 <= i < |s| ==>
      !Structural(s[i]) && s[i] != '?' && s[i] != '=' && s[i] != ' '
  }

  /** The string OpenTxLock hands to the driver; "" asks for no lock parameter. */
  function TxLockDSN(path: string, txlock: string, ps: seq<string>): Result<string, DsnError> {
    if txlock == "" then DSN(path, ps)
    else if !ValidTxLock(txlock) then Err(InvalidTxLock)
    else
      match DSN(path, ps)
      case Err(e) => Err(e)
      case Ok(dsn) => Ok(dsn + [if '?' in dsn then '&' else '?'] + ("_txlock=" + txlock))
  }

  function TxItems(txlock: string): seq<string> { if txlock == "" then [] else ["_txlock=" + txlock] }

  /** The separator chosen is always the right one: the lock is one more parameter of the same URI. */
  lemma TxLockIsOneMoreParameter(path: string, txlock: string, ps: seq<string>)
    requires TxLockDSN(path, txlock, ps).Ok?
    ensures forall p :: p in ps ==> ValidPragma(p)
    ensures TxLockDSN(path, txlock, ps).value == Uri(path, Renders(ps) + TxItems(txlock))
  {
    var items := Renders(ps);
    QueryMark(path, items);
    if txlock == "" {
      assert items + [] == items;
    } else {
      UriSnoc(path, items, "_txlock=" + txlock);
    }
  }

  /** The string spelt out: the file scheme, the escaped path, then the parameters, the lock as the last of them. */
  lemma UriSpeltOut(path: string, txlock: string, ps: seq<string>)
    requires TxLockDSN(path, txlock, ps).Ok?
    ensures ['f', 'i', 'l', 'e', ':'] + EscapePath(path) <= TxLockDSN(path, txlock, ps).value
    ensures txlock != "" ==> var s := TxLockDSN(path, txlock, ps).value;
              |s| >= |txlock| + 8 && s[|s| - |txlock| - 8..] == ['_', 't', 'x', 'l', 'o', 'c', 'k', '='] + txlock
  {
    TxLockIsOneMoreParameter(path, txlock, ps);
    StartsWithPath(path, Renders(ps) + TxItems(txlock));
    if txlock != "" {
      UriSnoc(path, Renders(ps), "_txlock=" + txlock);
      EndsWith(Uri(path, Renders(ps)) + [Separator(Renders(ps))], "_txlock=" + txlock);
    }
  }

  lemma StartsWithPath(path: string, items: seq<string>)
    ensures ['f', 'i', 'l', 'e', ':'] + EscapePath(path) <= Uri(path, items)
  {
    var f, e, q := "file:", EscapePath(path), Query(items);
    assert f == ['f', 'i', 'l', 'e', ':'];
    Regroup(f, e, q);
    StartsWith(f + e, q);
  }

  lemma StartsWith(a: string, b: string)
    ensures a <= a + b
  {
  }

  lemma EndsWith(a: string, b: string)
    ensures (a + b)[|a + b| - |b|..] == b
  {
  }

  lemma TxItemsAreFree(txlock: string)
    requires ValidTxLock(txlock)
    ensures Free(TxItems(txlock), '&')
  {
    assert '&' !in txlock && '&' !in "_txlock=";
  }

  /** With the lock mode included the string still determines path, pragmas and lock. */
  lemma TxLockInjective(p: string, s: string, ps: seq<string>, q: string, t: string, qs: seq<string>)
    requires TxLockDSN(p, s, ps).Ok? && TxLockDSN(p, s, ps) == TxLockDSN(q, t, qs)
    ensures p == q && s == t && ps == qs
  {
    TxLockIsOneMoreParameter(p, s, ps);
    TxLockIsOneMoreParameter(q, t, qs);
    var a, b := Renders(ps), Renders(qs);
    TxItemsAreFree(s);
    TxItemsAreFree(t);
    ItemsAreFree(ps, TxItems(s));
    ItemsAreFree(qs, TxItems(t));
    UriInjective(p, a + TxItems(s), q, b + TxItems(t));
    LastItem(ps, s, qs, t);
    LastItem(qs, t, ps, s);
    assert (a + TxItems(s))[..|a|] == a && (b + TxItems(t))[..|b|] == b;
    if s != "" {
      assert (a + TxItems(s))[|a|] == "_txlock=" + s && (b + TxItems(t))[|b|] == "_txlock=" + t;
      assert ("_txlock=" + s)[8..] == s && ("_txlock=" + t)[8..] == t;
    }
    RendersInjective(ps, qs);
  }

  /** A lock parameter is never mistaken for a pragma. */
  lemma LastItem(ps: seq<string>, s: string, qs: seq<string>, t: string)
    requires (forall p :: p in ps ==> ValidPragma(p)) && (forall p :: p in qs ==> ValidPragma(p))
    requires Renders(ps) + TxItems(s) == Renders(qs) + TxItems(t)
    ensures s != "" ==> t != ""
  {
    if s != "" && t == "" {
      var items := Renders(ps) + TxItems(s);
      var last := items[|items| - 1];
      assert last == "_txlock=" + s && last[1] == 't';
      assert last == Renders(qs)[|qs| - 1];
      RenderHasNoAmp(qs[|qs| - 1]);
    }
  }

  // ---------------------------------------------------------------- what is accepted

  /** A pragma is accepted exactly when it is a non-empty name, '=' and a non-empty value, free of structure. */
  lemma PragmaExactly(p: string)
    ensures ValidPragma(p) <==> exists n, v :: Spelt(p, n, v)
    ensures forall n, v :: Spelt(p, n, v) ==> ValidPragma(p) && Render(p) == "_pragma=" + n + "(" + v + ")"
  {
    if ValidPragma(p) {
      assert p == Name(p) + "=" + Value(p);
      assert Spelt(p, Name(p), Value(p));
    }
    forall n, v | Spelt(p, n, v) ensures ValidPragma(p) && Render(p) == "_pragma=" + n + "(" + v + ")" {
      SpeltIsCut(p, n, v);
    }
  }

  ghost predicate Spelt(p: string, n: string, v: string) {
    n != "" && v != "" && '=' !in n && p == n + "=" + v && forall c :: c in p ==> c !in "()&#"
  }

  lemma SpeltIsCut(p: string, n: string, v: string)
    requires Spelt(p, n, v)
    ensures ValidPragma(p) && Name(p) == n && Value(p) == v
  {
    var k := CutAt(p);
    assert p[|n|] == '=' && p[..|p|] == p;
    assert p == p[..k] + ['='] + p[k + 1..];
    SplitUnique(p[..k], n, '=', p[k + 1..], v);
    forall i | 0 <= i < |p| ensures !Structural(p[i]) {
      assert p[i] in p;
      assert '(' in "()&#" && ')' in "()&#" && '&' in "()&#" && '#' in "()&#" by {
        assert "()&#"[0] == '(' && "()&#"[1] == ')' && "()&#"[2] == '&' && "()&#"[3] == '#';
      }
    }
  }

  /** A string is built exactly for a non-empty path, a lock mode free of structure and pragmas that are all accepted. */
  lemma AcceptedExactly(path: string, txlock: string, ps: seq<string>)
    ensures TxLockDSN(path, txlock, ps).Ok? <==>
            && path != "" && (forall c :: c in txlock ==> c !in "()&#?= ")
            && forall p :: p in ps ==> exists n, v :: Spelt(p, n, v)
    ensures TxLockDSN(path, txlock, ps) == Err(InvalidTxLock) <==> exists c :: c in txlock && c in "()&#?= "
    ensures TxLockDSN(path, txlock, ps) == Err(EmptyPath) <==> path == "" && forall c :: c in txlock ==> c !in "()&#?= "
  {
    forall p | p in ps ensures ValidPragma(p) <==> exists n, v :: Spelt(p, n, v) {
      PragmaExactly(p);
    }
    TxLockExactly(txlock);
  }

  lemma TxLockExactly(txlock: string)
    ensures ValidTxLock(txlock) <==> forall c :: c in txlock ==> c !in "()&#?= "
  {
    forall c ensures c in "()&#?= " <==> Structural(c) || c == '?' || c == '=' || c == ' ' {
      var bad := "()&#?= ";
      assert bad[0] == '(' && bad[1] == ')' && bad[2] == '&' && bad[3] == '#';
      assert bad[4] == '?' && bad[5] == '=' && bad[6] == ' ';
    }
    forall i | 0 <= i < |txlock| ensures txlock[i] in txlock {
    }
  }
}
