/** The byte string a corpus revision is hashed from. */
module Corpus {
  import opened Bytes
  import opened Delimited

  type Name = seq<Byte>
  type Files = map<Name, seq<Byte>>

  // ---------------------------------------------------------------- the order of names

  /** Byte-wise lexicographic order. */
  predicate Less(a: Name, b: Name) {
    if b == [] then false
    else if a == [] then true
    else a[0] < b[0] || (a[0] == b[0] && Less(a[1..], b[1..]))
  }

  lemma {:induction false} LessTotal(a: Name, b: Name)
    ensures a == b || Less(a, b) || Less(b, a)
    ensures !(Less(a, b) && Less(b, a)) && !Less(a, a)
  {
    if a != [] { LessTotal(a[1..], a[1..]); }
    if a != [] && b != [] {
      LessTotal(a[1..], b[1..]);
      assert a == [a[0]] + a[1..] && b == [b[0]] + b[1..];
    }
  }

  lemma {:induction false} LessTrans(a: Name, b: Name, c: Name)
    requires Less(a, b) && Less(b, c)
    ensures Less(a, c)
  {
    if a != [] && a[0] == b[0] == c[0] { LessTrans(a[1..], b[1..], c[1..]); }
  }

  ghost predicate Ascending(names: seq<Name>) {
    forall i, j :: 0 <= i < j < |names| ==> Less(names[i], names[j])
  }

  /** Insert a name into an ascending list. */
  function Insert(x: Name, names: seq<Name>): seq<Name> {
    if names == [] || Less(x, names[0]) then [x] + names else [names[0]] + Insert(x, names[1..])
  }

  lemma {:induction false} InsertAscending(x: Name, names: seq<Name>)
    requires Ascending(names) && x !in names
    ensures Ascending(Insert(x, names))
    ensures forall y :: y in Insert(x, names) <==> y == x || y in names
  {
    if names == [] {
    } else {
      var head, tail := names[0], names[1..];
      assert names == [head] + tail;
      LessTotal(x, head);
      if Less(x, head) {
        forall y | y in names ensures Less(x, y) {
          if y != head {
            var i :| 0 <= i < |names| && names[i] == y;
            LessTrans(x, head, y);
          }
        }
      } else {
        InsertAscending(x, tail);
        forall y | y in Insert(x, tail) ensures Less(head, y) {
          if y != x { var i :| 0 <= i < |tail| && tail[i] == y; assert names[i + 1] == y; }
        }
      }
    }
  }

  /** Two ascending lists of the same names are the same list. */
  lemma {:induction false} AscendingUnique(a: seq<Name>, b: seq<Name>)
    requires Ascending(a) && Ascending(b) && forall x :: x in a <==> x in b
    ensures a == b
  {
    SameEmpty(a, b);
    SameEmpty(b, a);
    if a == [] {
    } else {
      assert a[0] in a && b[0] in b;
      SameHead(a, b);
      assert a == [a[0]] + a[1..] && b == [b[0]] + b[1..];
      NotInTail(a);
      NotInTail(b);
      forall x ensures x in a[1..] <==> x in b[1..] {
        assert x in a <==> x in b;
      }
      AscendingUnique(a[1..], b[1..]);
    }
  }

  lemma SameEmpty(a: seq<Name>, b: seq<Name>)
    requires forall x :: x in a ==> x in b
    ensures a != [] ==> b != []
  {
    if a != [] { assert a[0] in a; }
  }

  lemma NotInTail(a: seq<Name>)
    requires Ascending(a) && a != []
    ensures a[0] !in a[1..]
  {
    LessTotal(a[0], a[0]);
  }

  lemma SameHead(a: seq<Name>, b: seq<Name>)
    requires Ascending(a) && Ascending(b) && a != [] && b != [] && a[0] in b && b[0] in a
    ensures a[0] == b[0]
  {
    LessTotal(a[0], b[0]);
    var i :| 0 <= i < |b| && b[i] == a[0];
    var j :| 0 <= j < |a| && a[j] == b[0];
  }

  // ---------------------------------------------------------------- the preimage

  /** name NUL content NUL for each name in turn. */
  function Feed(names: seq<Name>, files: Files): seq<Byte>
    requires forall n :: n in names ==> n in files
  {
    if names == [] then []
    else names[0] + [0] + (files[names[0]] + [0] + Feed(names[1..], files))
  }

  /** The names in the order they are hashed. */
  ghost predicate Canonical(names: seq<Name>, files: Files) {
    Ascending(names) && forall n :: n in names <==> n in files
  }

  /** Hash up to the digest: collect the keys in map order, sort them, feed the pairs. */
  method HashInput(files: Files) returns (out: seq<Byte>)
    ensures exists names :: Canonical(names, files) && out == Feed(names, files)
  {
    var collected := Collect(files);
    var sorted := Sort(collected);
    SortedIsCanonical(collected, sorted, files);
    out := [];
    for i := 0 to |sorted|
      invariant out + Feed(sorted[i..], files) == Feed(sorted, files)
    {
      var n := sorted[i];
      assert n in sorted && sorted[i..][1..] == sorted[i + 1..];
      FeedHead(out, sorted[i..], files);
      out := out + n + [0] + files[n] + [0];
    }
    assert out + [] == out;
  }

  lemma SortedIsCanonical(collected: seq<Name>, sorted: seq<Name>, files: Files)
    requires Ascending(sorted) && forall n :: n in sorted <==> n in collected
    requires forall n :: n in collected <==> n in files
    ensures Canonical(sorted, files)
  {
    forall n ensures n in sorted <==> n in files {
      assert n in sorted <==> n in collected;
    }
  }

  lemma FeedHead(out: seq<Byte>, names: seq<Name>, files: Files)
    requires names != [] && forall n :: n in names ==> n in files
    ensures var n := names[0];
            n in files && out + Feed(names, files) == (out + n + [0] + files[n] + [0]) + Feed(names[1..], files)
  {
    assert names[0] in names;
  }

  /** The keys in whatever order the map yields them, each once. */
  method Collect(files: Files) returns (names: seq<Name>)
    ensures forall n :: n in names <==> n in files
    ensures forall i, j :: 0 <= i < j < |names| ==> names[i] != names[j]
  {
    names := [];
    var todo := files.Keys;
    while todo != {}
      invariant todo <= files.Keys
      invariant forall n :: n in names <==> n in files && n !in todo
      invariant forall i, j :: 0 <= i < j < |names| ==> names[i] != names[j]
      decreases todo
    {
      var n :| n in todo;
      assert n !in names;
      names := names + [n];
      todo := todo - {n};
    }
  }

  /** sort.Strings, as insertion of each name in turn. */
  method Sort(names: seq<Name>) returns (sorted: seq<Name>)
    requires forall i, j :: 0 <= i < j < |names| ==> names[i] != names[j]
    ensures Ascending(sorted) && forall n :: n in sorted <==> n in names
  {
    sorted := [];
    for i := 0 to |names|
      invariant Ascending(sorted) && forall n :: n in sorted <==> n in names[..i]
    {
      assert names[..i + 1] == names[..i] + [names[i]];
      InsertAscending(names[i], sorted);
      sorted := Insert(names[i], sorted);
    }
    assert names[..|names|] == names;
  }

  /** The bytes depend on the corpus alone, not on the order its map was walked in. */
  lemma InputIsDetermined(files: Files, a: seq<Name>, b: seq<Name>)
    requires Canonical(a, files) && Canonical(b, files)
    ensures Feed(a, files) == Feed(b, files)
  {
    forall n ensures n in a <==> n in b {
      assert n in a <==> n in files;
    }
    AscendingUnique(a, b);
  }

  predicate NulFree(files: Files) { forall n :: n in files ==> 0 !in n && 0 !in files[n] }

  /** The position of the first NUL. */
  function NulAt(s: seq<Byte>): (k: nat)
    ensures k <= |s| && 0 !in s[..k] && (k < |s| ==> s[k] == 0)
  {
    if s == [] || s[0] == 0 then 0
    else
      var k := NulAt(s[1..]);
      assert s[..k + 1] == [s[0]] + s[1..][..k];
      k + 1
  }

  lemma NulAtSplit(x: seq<Byte>, r: seq<Byte>)
    requires 0 !in x
    ensures NulAt(x + [0] + r) == |x|
    ensures (x + [0] + r)[..|x|] == x && (x + [0] + r)[|x| + 1..] == r
  {
    var s := x + [0] + r;
    var k := NulAt(s);
    assert s[|x|] == 0 && 0 in s;
    assert s[..|s|] == s;
    assert s == s[..k] + [0] + s[k + 1..];
    SplitUnique(x, s[..k], 0, r, s[k + 1..]);
  }

  /** Read the (name, content) pairs back out of the fed bytes. */
  function Read(s: seq<Byte>): seq<(Name, seq<Byte>)>
    decreases |s|
  {
    var i := NulAt(s);
    if i >= |s| then []
    else
      var t := s[i + 1..];
      var j := NulAt(t);
      if j >= |t| then [] else [(s[..i], t[..j])] + Read(t[j + 1..])
  }

  function Pairs(names: seq<Name>, files: Files): (r: seq<(Name, seq<Byte>)>)
    requires forall n :: n in names ==> n in files
    ensures |r| == |names| && forall i :: 0 <= i < |r| ==> names[i] in files && r[i] == (names[i], files[names[i]])
  {
    seq(|names|, i requires 0 <= i < |names| => assert names[i] in names; (names[i], files[names[i]]))
  }

  lemma ReadCons(n: Name, c: seq<Byte>, rest: seq<Byte>)
    requires 0 !in n && 0 !in c
    ensures Read(n + [0] + (c + [0] + rest)) == [(n, c)] + Read(rest)
  {
    NulAtSplit(n, c + [0] + rest);
    NulAtSplit(c, rest);
  }

  lemma PairsCons(names: seq<Name>, files: Files)
    requires names != [] && forall n :: n in names ==> n in files
    ensures names[0] in files
    ensures Pairs(names, files) == [(names[0], files[names[0]])] + Pairs(names[1..], files)
  {
    assert names[0] in names;
  }

  /** Reading recovers every name with its own content, in hashing order. */
  lemma {:induction false} ReadFeed(names: seq<Name>, files: Files)
    requires NulFree(files) && forall n :: n in names ==> n in files
    ensures Read(Feed(names, files)) == Pairs(names, files)
  {
    if names == [] {
    } else {
      PairsCons(names, files);
      ReadFeed(names[1..], files);
      ReadCons(names[0], files[names[0]], Feed(names[1..], files));
    }
  }

  lemma FeedInjective(a: seq<Name>, f: Files, b: seq<Name>, g: Files)
    requires NulFree(f) && NulFree(g)
    requires (forall n :: n in a ==> n in f) && (forall n :: n in b ==> n in g)
    requires Feed(a, f) == Feed(b, g)
    ensures a == b && forall n :: n in a ==> f[n] == g[n]
  {
    ReadFeed(a, f);
    ReadFeed(b, g);
    var p, q := Pairs(a, f), Pairs(b, g);
    forall i | 0 <= i < |a| ensures a[i] == b[i] && f[a[i]] == g[a[i]] {
      assert p[i] == q[i];
    }
  }

  /** Two NUL-free corpora with the same hash input are the same corpus. */
  lemma InputInjective(f: Files, a: seq<Name>, g: Files, b: seq<Name>)
    requires NulFree(f) && NulFree(g) && Canonical(a, f) && Canonical(b, g)
    requires Feed(a, f) == Feed(b, g)
    ensures f == g
  {
    FeedInjective(a, f, b, g);
    forall n ensures n in f <==> n in g {
      assert n in a <==> n in f;
      assert n in b <==> n in g;
    }
  }

  /** NUL bytes in a content do collide: it can hold the separator, a later name and its content. */
  lemma NulCollides(a: Name, b: Name, x: seq<Byte>, y: seq<Byte>)
    requires Less(a, b)
    ensures var f: Files := map[a := x + [0] + b + [0] + y];
            var g: Files := map[a := x, b := y];
            && f != g && Canonical([a], f) && Canonical([a, b], g)
            && Feed([a], f) == Feed([a, b], g)
  {
    LessTotal(a, b);
    var f: Files := map[a := x + [0] + b + [0] + y];
    var g: Files := map[a := x, b := y];
    assert b in g && b !in f;
    assert [a][1..] == [] && [a, b][1..] == [b] && [b][1..] == [];
    assert Feed([b], g) == b + [0] + (y + [0] + []);
    assert Feed([a, b], g) == a + [0] + (x + [0] + Feed([b], g));
    assert Feed([a], f) == a + [0] + ((x + [0] + b + [0] + y) + [0] + []);
  }

  /** No other corpus at all has these bytes. */
  ghost predicate Determines(names: seq<Name>, files: Files)
    requires Canonical(names, files)
  {
    forall g: Files, b :: Canonical(b, g) && Feed(b, g) == Feed(names, files) ==> g == files
  }

  /** Bytes that hold three separators. */
  function Three(x: seq<Byte>, y: seq<Byte>, z: seq<Byte>): seq<Byte> { x + [0] + (y + [0] + (z + [0])) }

  lemma {:induction false} FeedEnds(names: seq<Name>, files: Files)
    requires names != [] && forall n :: n in names ==> n in files
    ensures var s := Feed(names, files); s != [] && s == s[..|s| - 1] + [0]
  {
    assert names[0] in names;
    if |names| > 1 {
      FeedEnds(names[1..], files);
    } else {
      assert names[1..] == [];
    }
  }

  lemma NulSplit(s: seq<Byte>) returns (x: seq<Byte>, y: seq<Byte>)
    requires 0 in s
    ensures s == x + [0] + y
  {
    var i :| 0 <= i < |s| && s[i] == 0;
    x, y := s[..i], s[i + 1..];
  }

  lemma FeedOne(n: Name, files: Files)
    requires n in files
    ensures Feed([n], files) == n + [0] + (files[n] + [0])
  {
    assert [n][1..] == [];
    assert files[n] + [0] + [] == files[n] + [0];
  }

  /** A second file or a NUL byte puts a third separator into the bytes. */
  lemma ThirdSeparator(names: seq<Name>, files: Files) returns (x: seq<Byte>, y: seq<Byte>, z: seq<Byte>)
    requires Canonical(names, files) && !(|names| <= 1 && NulFree(files))
    ensures Feed(names, files) == Three(x, y, z)
  {
    if |names| > 1 {
      assert names[0] in names;
      FeedEnds(names[1..], files);
      var rest := Feed(names[1..], files);
      x, y, z := names[0], files[names[0]], rest[..|rest| - 1];
    } else {
      var n :| n in files && (0 in n || 0 in files[n]);
      assert n in names;
      assert names == [n];
      FeedOne(n, files);
      if 0 in n {
        x, y := NulSplit(n);
        z := files[n];
        assert x + [0] + y + [0] + (z + [0]) == Three(x, y, z);
      } else {
        x := n;
        y, z := NulSplit(files[n]);
        assert y + [0] + z + [0] == y + [0] + (z + [0]);
      }
    }
  }

  /** Three separators can be read as one file in two ways. */
  lemma TwoReadings(x: seq<Byte>, y: seq<Byte>, z: seq<Byte>)
    ensures var f: Files := map[x := y + [0] + z];
            var g: Files := map[x + [0] + y := z];
            && f != g && Canonical([x], f) && Canonical([x + [0] + y], g)
            && Feed([x], f) == Three(x, y, z) == Feed([x + [0] + y], g)
  {
    var f: Files := map[x := y + [0] + z];
    var g: Files := map[x + [0] + y := z];
    assert |x + [0] + y| != |x|;
    assert x in f && x !in g;
    FeedOne(x, f);
    FeedOne(x + [0] + y, g);
    assert y + [0] + z + [0] == y + [0] + (z + [0]);
    assert x + [0] + y + [0] + (z + [0]) == Three(x, y, z);
  }

  lemma NotThree(n: Name, c: seq<Byte>, x: seq<Byte>, y: seq<Byte>, z: seq<Byte>)
    requires 0 !in n && 0 !in c
    ensures n + [0] + (c + [0]) != Three(x, y, z)
  {
    var s, t := n + [0] + (c + [0]), Three(x, y, z);
    var i, j := |x|, |x| + 1 + |y|;
    assert t[i] == 0 && t[j] == 0 && i < j < |t| - 1;
    assert forall k :: 0 <= k < |n| ==> s[k] == n[k];
    assert forall k :: |n| < k < |s| - 1 ==> s[k] == c[k - |n| - 1];
  }

  /** A corpus of at most one NUL-free file is the only one with its bytes. */
  lemma SmallIsDetermined(f: Files, a: seq<Name>, g: Files, b: seq<Name>)
    requires Canonical(a, f) && Canonical(b, g) && |a| <= 1 && NulFree(f)
    requires Feed(b, g) == Feed(a, f)
    ensures g == f
  {
    if !(|b| <= 1 && NulFree(g)) {
      var x, y, z := ThirdSeparator(b, g);
      if a != [] {
        assert a == [a[0]] && a[0] in a;
        FeedOne(a[0], f);
        NotThree(a[0], f[a[0]], x, y, z);
      }
    } else {
      InputInjective(f, a, g, b);
    }
  }

  /** Over all corpora the bytes determine exactly those of at most one file without a NUL. */
  lemma DeterminedExactly(f: Files, a: seq<Name>)
    requires Canonical(a, f)
    ensures Determines(a, f) <==> |a| <= 1 && NulFree(f)
  {
    if |a| <= 1 && NulFree(f) {
      forall g: Files, b | Canonical(b, g) && Feed(b, g) == Feed(a, f) ensures g == f {
        SmallIsDetermined(f, a, g, b);
      }
    } else {
      var x, y, z := ThirdSeparator(a, f);
      TwoReadings(x, y, z);
      var g: Files := map[x := y + [0] + z];
      var h: Files := map[x + [0] + y := z];
      assert Canonical([x], g) && Canonical([x + [0] + y], h);
    }
  }

  // ---------------------------------------------------------------- names as a directory gives them

  predicate NamesFree(files: Files) { forall n :: n in files ==> 0 !in n }

  /** No other corpus whose names hold no NUL has these bytes. */
  ghost predicate DeterminesNamed(names: seq<Name>, files: Files)
    requires Canonical(names, files)
  {
    forall g: Files, b :: NamesFree(g) && Canonical(b, g) && Feed(b, g) == Feed(names, files) ==> g == files
  }

  /** The content reads as a shorter one followed by a later file. */
  ghost predicate HoldsFile(n: Name, content: seq<Byte>, x: seq<Byte>, b: Name, y: seq<Byte>) {
    0 !in b && Less(n, b) && content == x + [0] + b + [0] + y
  }

  ghost predicate HidesFile(n: Name, content: seq<Byte>) {
    exists x, b, y :: HoldsFile(n, content, x, b, y)
  }

  /** Two or more files have the bytes of their first name with everything else as its content. */
  lemma FoldsIntoOne(names: seq<Name>, files: Files) returns (g: Files)
    requires Canonical(names, files) && |names| > 1
    ensures g.Keys == {names[0]} && g != files && Canonical([names[0]], g) && Feed([names[0]], g) == Feed(names, files)
  {
    var n := names[0];
    assert n in names && names[1] in names;
    LessTotal(n, names[1]);
    FeedEnds(names[1..], files);
    var rest := Feed(names[1..], files);
    var content := files[n] + [0] + rest[..|rest| - 1];
    g := map[n := content];
    FeedOne(n, g);
    assert files[n] + [0] + rest == content + [0];
    assert names[1] in files && names[1] !in g;
  }

  /** Another reading of one file starts with the same name, and its second name lies in the content. */
  lemma SecondNameInContent(n: Name, content: seq<Byte>, g: Files, b: seq<Name>)
    requires 0 !in n && NamesFree(g) && Canonical(b, g) && |b| > 1
    requires Feed(b, g) == n + [0] + (content + [0])
    ensures HidesFile(n, content)
  {
    assert b[0] in b && b[1] in b;
    var rest := Feed(b[1..], g);
    SplitUnique(b[0], n, 0, g[b[0]] + [0] + rest, content + [0]);
    var y := TailOfFeed(b[1..], g);
    assert g[b[0]] + [0] + (b[1] + [0] + y + [0]) == (g[b[0]] + [0] + b[1] + [0] + y) + [0];
    SameInit(g[b[0]] + [0] + b[1] + [0] + y, content);
    assert HoldsFile(n, content, g[b[0]], b[1], y);
  }

  lemma SameInit(a: seq<Byte>, b: seq<Byte>)
    requires a + [0] == b + [0]
    ensures a == b
  {
    assert (a + [0])[..|a|] == a && (b + [0])[..|b|] == b && |a| == |b|;
  }

  /** The bytes of a non-empty list: its first name, something, and a last NUL. */
  lemma TailOfFeed(names: seq<Name>, files: Files) returns (y: seq<Byte>)
    requires names != [] && forall n :: n in names ==> n in files
    ensures Feed(names, files) == names[0] + [0] + y + [0]
  {
    assert names[0] in names;
    var c := files[names[0]];
    if |names| == 1 {
      y := c;
      assert names == [names[0]];
      FeedOne(names[0], files);
    } else {
      FeedEnds(names[1..], files);
      var rest := Feed(names[1..], files);
      y := c + [0] + rest[..|rest| - 1];
      assert c + [0] + rest == y + [0];
    }
    assert names[0] + [0] + (y + [0]) == names[0] + [0] + y + [0];
  }

  lemma NamedIsDetermined(f: Files, a: seq<Name>, g: Files, b: seq<Name>)
    requires NamesFree(f) && NamesFree(g) && Canonical(a, f) && Canonical(b, g) && Feed(b, g) == Feed(a, f)
    requires |a| == 1 && a[0] in f && !HidesFile(a[0], f[a[0]])
    ensures g == f
  {
    var n := a[0];
    assert a == [n];
    FeedOne(n, f);
    if |b| > 1 { SecondNameInContent(n, f[n], g, b); }
    assert b != [];
    assert b == [b[0]] && b[0] in b;
    FeedOne(b[0], g);
    SplitUnique(b[0], n, 0, g[b[0]] + [0], f[n] + [0]);
    SameInit(g[b[0]], f[n]);
    forall m ensures m in f <==> m in g {
      assert m in a <==> m in f;
      assert m in b <==> m in g;
    }
  }

  /**
   Among corpora with NUL-free names, which is what a directory yields, the bytes determine exactly
   the empty corpus and the single files whose content does not hold a later file.
   */
  lemma NamedDeterminedExactly(f: Files, a: seq<Name>)
    requires NamesFree(f) && Canonical(a, f)
    ensures DeterminesNamed(a, f) <==> |a| <= 1 && forall n :: n in f ==> !HidesFile(n, f[n])
  {
    if |a| > 1 {
      assert a[0] in a;
      var g := FoldsIntoOne(a, f);
      assert NamesFree(g) && Canonical([a[0]], g);
    } else if n :| n in f && HidesFile(n, f[n]) {
      HiddenFileCollides(f, a, n);
    } else {
      forall g: Files, b | NamesFree(g) && Canonical(b, g) && Feed(b, g) == Feed(a, f) ensures g == f {
        if a == [] {
          EmptyIsDetermined(f, a, g, b);
        } else {
          assert a[0] in a;
          NamedIsDetermined(f, a, g, b);
        }
      }
    }
  }

  lemma EmptyIsDetermined(f: Files, a: seq<Name>, g: Files, b: seq<Name>)
    requires a == [] && Canonical(a, f) && Canonical(b, g) && Feed(b, g) == Feed(a, f)
    ensures g == f
  {
    if b != [] { FeedEnds(b, g); }
    forall m ensures m in f <==> m in g {
      assert m in a <==> m in f;
      assert m in b <==> m in g;
    }
  }

  lemma HiddenFileCollides(f: Files, a: seq<Name>, n: Name)
    requires NamesFree(f) && Canonical(a, f) && |a| <= 1 && n in f && HidesFile(n, f[n])
    ensures !DeterminesNamed(a, f)
  {
    var x, b, y :| HoldsFile(n, f[n], x, b, y);
    var g: Files := map[n := x, b := y];
    assert n in a;
    assert a == [n];
    NulCollides(n, b, x, y);
    FeedOne(n, f);
    FeedOne(n, map[n := f[n]]);
    LessTotal(n, b);
    assert NamesFree(g) && Canonical([n, b], g);
    assert b in g && (b in f ==> b in a);
  }

  /** The order of names is byte order: at the first difference the smaller byte, and a prefix before what it begins. */
  lemma {:induction false} LessAtFirstDifference(common: Name, a: Name, b: Name)
    ensures Less(common + a, common + b) <==> Less(a, b)
    ensures a == [] && b != [] ==> Less(a, b) && !Less(b, a)
    ensures a != [] && b != [] && a[0] < b[0] ==> Less(a, b) && !Less(b, a)
  {
    if common == [] {
      assert common + a == a && common + b == b;
    } else {
      LessAtFirstDifference(common[1..], a, b);
      assert (common + a)[1..] == common[1..] + a && (common + b)[1..] == common[1..] + b;
    }
  }
}
