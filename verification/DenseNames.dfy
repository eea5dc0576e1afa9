/**
 The shortening of benchmark names in BenchmarkCompare.java: the common leading lower-case
 segments are abbreviated to their initials, or dropped when they never had to be cut.
 */
module DenseNames {
  import opened Common

  datatype Error = StringIndexOutOfBounds

  // ----- String.split("\\.")

  /** All pieces between dots, empty ones included. */
  function Pieces(s: string): (ss: seq<string>)
    ensures ss != [] && forall p :: p in ss ==> '.' !in p
  {
    if s == "" then [""]
    else
      var rest := Pieces(s[1..]);
      if s[0] == '.' then [""] + rest else [[s[0]] + rest[0]] + rest[1..]
  }

  function DropTrailingEmpty(ss: seq<string>): (r: seq<string>)
    ensures r <= ss
  {
    if ss != [] && Last(ss) == "" then DropTrailingEmpty(ss[..|ss| - 1]) else ss
  }

  /** Java drops trailing empty pieces, except when there is no dot at all. */
  function Split(s: string): (names: seq<string>)
    ensures forall p :: p in names ==> '.' !in p
  {
    if '.' !in s then [s] else DropTrailingEmpty(Pieces(s))
  }

  function JoinDots(ss: seq<string>): string
    requires ss != []
  {
    if |ss| == 1 then ss[0] else ss[0] + "." + JoinDots(ss[1..])
  }

  /** The pieces are what stands between the dots. */
  lemma {:induction false} PiecesJoin(s: string)
    ensures JoinDots(Pieces(s)) == s
  {
    if s != "" {
      PiecesJoin(s[1..]);
      var rest := Pieces(s[1..]);
      assert s == [s[0]] + s[1..];
      if s[0] == '.' {
        assert ([""] + rest)[1..] == rest;
      } else {
        JoinHead(s[0], rest);
      }
    }
  }

  lemma JoinHead(c: char, rest: seq<string>)
    requires rest != []
    ensures JoinDots([[c] + rest[0]] + rest[1..]) == [c] + JoinDots(rest)
  {
    var more := [[c] + rest[0]] + rest[1..];
    assert more[1..] == rest[1..];
    if |rest| > 1 {
      assert ([c] + rest[0]) + "." + JoinDots(rest[1..]) == [c] + (rest[0] + "." + JoinDots(rest[1..]));
    }
  }

  /** Splitting at dots drops the trailing empty pieces and nothing else. */
  lemma SplitDropsTrailing(s: string)
    ensures Split(s) <= Pieces(s) && forall p :: p in Pieces(s)[|Split(s)|..] ==> p == ""
    ensures '.' in s && Split(s) != [] ==> Last(Split(s)) != ""
    ensures '.' !in s ==> Split(s) == [s]
  {
    if '.' !in s {
      NoDotOnePiece(s);
    } else {
      DroppedAreEmpty(Pieces(s));
    }
  }

  lemma {:induction false} DroppedAreEmpty(ss: seq<string>)
    ensures var kept := DropTrailingEmpty(ss);
      (forall p :: p in ss[|kept|..] ==> p == "") && (kept != [] ==> Last(kept) != "")
  {
    if ss != [] && Last(ss) == "" {
      var init := ss[..|ss| - 1];
      DroppedAreEmpty(init);
      var n := |DropTrailingEmpty(init)|;
      assert ss[n..] == init[n..] + [""];
    }
  }

  // ----- the common prefix

  predicate AllLower(lower: string -> bool, names: seq<string>) {
    forall n :: n in names ==> lower(n)
  }

  /** The first k segments of the first name are lower-case and shared by all names. */
  ghost predicate Shared(lower: string -> bool, src: seq<string>, k: nat)
    requires src != []
  {
    && k <= |Split(src[0])| && AllLower(lower, Split(src[0])[..k])
    && forall s :: s in src ==> Split(src[0])[..k] <= Split(s)
  }

  /** The longest shared run, and whether the first name alone would have allowed a longer one. */
  ghost predicate IsLongestShared(lower: string -> bool, src: seq<string>, prefix: seq<string>, prefixCut: bool)
    requires src != []
  {
    && Shared(lower, src, |prefix|) && prefix == Split(src[0])[..|prefix|]
    && !Shared(lower, src, |prefix| + 1)
    && (prefixCut <==> Shared(lower, [src[0]], |prefix| + 1))
  }

  /** The loop over the first name. */
  method LeadingLower(lower: string -> bool, names: seq<string>) returns (prefix: seq<string>)
    ensures prefix <= names && AllLower(lower, prefix)
    ensures |prefix| < |names| ==> !lower(names[|prefix|])
  {
    var c := 0;
    while c < |names| && lower(names[c])
      invariant c <= |names| && AllLower(lower, names[..c])
    {
      assert names[..c + 1] == names[..c] + [names[c]];
      c := c + 1;
    }
    prefix := names[..c];
  }

  /** The loop over a later name. */
  method SharedLength(lower: string -> bool, prefix: seq<string>, names: seq<string>) returns (c: nat)
    requires AllLower(lower, prefix)
    ensures AgreesOn(prefix, names, c)
  {
    c := 0;
    while c < |prefix| && c < |names|
      invariant c <= |prefix| && c <= |names| && prefix[..c] == names[..c]
    {
      assert prefix[c] in prefix;
      if names[c] != prefix[c] || !lower(names[c]) {
        break;
      }
      assert prefix[..c + 1] == names[..c + 1];
      c := c + 1;
    }
  }

  method CommonPrefix(lower: string -> bool, src: seq<string>) returns (prefix: seq<string>, prefixCut: bool)
    requires src != []
    ensures IsLongestShared(lower, src, prefix, prefixCut)
  {
    ghost var first := Split(src[0]);
    prefix := LeadingLower(lower, Split(src[0]));
    prefixCut := false;
    assert src[..1] == [src[0]];
    FirstNameShares(lower, src[0], prefix);
    for i := 1 to |src|
      invariant IsLongestShared(lower, src[..i], prefix, prefixCut)
    {
      var names := Split(src[i]);
      var c := SharedLength(lower, prefix, names);
      assert src[..i + 1] == src[..i] + [src[i]];
      OneMoreName(lower, src[..i], src[i], prefix, prefixCut, c);
      if |prefix| != c {
        prefixCut := true;
      }
      prefix := prefix[..c];
    }
    assert src[..|src|] == src;
  }

  lemma FirstNameShares(lower: string -> bool, s: string, prefix: seq<string>)
    requires prefix <= Split(s) && AllLower(lower, prefix)
    requires |prefix| < |Split(s)| ==> !lower(Split(s)[|prefix|])
    ensures IsLongestShared(lower, [s], prefix, false)
  {
    var names, k := Split(s), |prefix|;
    if k < |names| {
      assert names[k] in names[..k + 1];
    }
  }

  lemma SharedShorter(lower: string -> bool, src: seq<string>, k: nat, m: nat)
    requires src != [] && Shared(lower, src, k) && m <= k
    ensures Shared(lower, src, m)
  {
    var first := Split(src[0]);
    assert first[..k][..m] == first[..m];
    assert forall n :: n in first[..m] ==> n in first[..k];
  }

  /** A further name agrees with the prefix on exactly c segments. */
  ghost predicate AgreesOn(prefix: seq<string>, names: seq<string>, c: nat) {
    && c <= |prefix| && c <= |names| && prefix[..c] == names[..c]
    && (c < |prefix| && c < |names| ==> prefix[c] != names[c])
  }

  lemma SharedByOneMore(lower: string -> bool, src: seq<string>, s: string, prefix: seq<string>, c: nat)
    requires src != [] && Shared(lower, src, |prefix|) && prefix == Split(src[0])[..|prefix|]
    requires AgreesOn(prefix, Split(s), c)
    ensures Shared(lower, src + [s], c)
  {
    SharedShorter(lower, src, |prefix|, c);
    assert Split(src[0])[..c] == prefix[..c];
  }

  lemma SharedByFewer(lower: string -> bool, src: seq<string>, s: string, k: nat)
    requires src != [] && Shared(lower, src + [s], k)
    ensures Shared(lower, src, k) && k <= |Split(s)|
    ensures forall j :: 0 <= j < k ==> Split(src[0])[j] == Split(s)[j]
  {
    var first := Split(src[0]);
    assert s in src + [s];
    assert forall x :: x in src ==> x in src + [s];
    assert first[..k] == Split(s)[..k];
    assert forall j :: 0 <= j < k ==> first[..k][j] == first[j] && Split(s)[..k][j] == Split(s)[j];
  }

  lemma OneMoreName(lower: string -> bool, src: seq<string>, s: string, prefix: seq<string>, prefixCut: bool, c: nat)
    requires src != [] && IsLongestShared(lower, src, prefix, prefixCut)
    requires AgreesOn(prefix, Split(s), c)
    ensures IsLongestShared(lower, src + [s], prefix[..c], prefixCut || |prefix| != c)
  {
    SharedByOneMore(lower, src, s, prefix, c);
    NotSharedFurther(lower, src, s, prefix, prefixCut, c);
    CutByOneMore(lower, src, prefix, prefixCut, c);
    assert prefix[..c] == Split(src[0])[..c] && (src + [s])[0] == src[0];
  }

  lemma CutByOneMore(lower: string -> bool, src: seq<string>, prefix: seq<string>, prefixCut: bool, c: nat)
    requires src != [] && IsLongestShared(lower, src, prefix, prefixCut) && c <= |prefix|
    ensures prefixCut || |prefix| != c <==> Shared(lower, [src[0]], c + 1)
  {
    if c < |prefix| {
      SharedShorter(lower, src, |prefix|, c + 1);
      assert [src[0]][0] in src;
    }
  }

  lemma NotSharedFurther(lower: string -> bool, src: seq<string>, s: string, prefix: seq<string>, prefixCut: bool,
                         c: nat)
    requires src != [] && IsLongestShared(lower, src, prefix, prefixCut)
    requires AgreesOn(prefix, Split(s), c)
    ensures !Shared(lower, src + [s], c + 1)
  {
    if Shared(lower, src + [s], c + 1) {
      SharedByFewer(lower, src, s, c + 1);
    }
  }

  // ----- the dense names

  /** Initials if the prefix was cut, otherwise nothing. */
  function Abbreviate(prefix: seq<string>, prefixCut: bool): (short: seq<string>)
    requires prefixCut ==> "" !in prefix
    ensures |short| == |prefix|
    ensures (forall p :: p in prefix ==> '.' !in p) ==> forall p :: p in short ==> '.' !in p
  {
    if prefix == [] then []
    else
      assert prefix[0] in prefix;
      [if prefixCut then [prefix[0][0]] else ""] + Abbreviate(prefix[1..], prefixCut)
  }

  function NonEmpty(names: seq<string>): (r: seq<string>)
    ensures forall n :: n in r <==> n in names && n != ""
  {
    if names == [] then []
    else if names[0] == "" then NonEmpty(names[1..])
    else [names[0]] + NonEmpty(names[1..])
  }

  /** Every non-empty segment followed by a dot. */
  function Dotted(names: seq<string>): string {
    if names == [] then ""
    else (if names[0] == "" then "" else names[0] + ".") + Dotted(names[1..])
  }

  function Dense(names: seq<string>): string {
    var d := Dotted(names);
    if d != "" && Last(d) == '.' then d[..|d| - 1] else d
  }

  /** A dense name is its non-empty segments, joined by dots. */
  lemma DenseIsJoin(names: seq<string>)
    ensures Dense(names) == if NonEmpty(names) == [] then "" else JoinDots(NonEmpty(names))
  {
    DottedSkipsEmpty(names);
    if NonEmpty(names) != [] {
      DottedIsJoin(NonEmpty(names));
    }
  }

  lemma {:induction false} DottedIsJoin(names: seq<string>)
    requires names != [] && "" !in names
    ensures Dotted(names) == JoinDots(names) + "."
  {
    assert names == [names[0]] + names[1..];
    if |names| == 1 {
      assert Dotted(names) == (names[0] + ".") + Dotted([]);
    } else {
      DottedIsJoin(names[1..]);
    }
  }

  lemma DottedStep(dense: string, names: seq<string>)
    requires names != []
    ensures dense + Dotted(names) ==
      (if names[0] == "" then dense else dense + (names[0] + ".")) + Dotted(names[1..])
  {
    var rest := Dotted(names[1..]);
    if names[0] == "" {
      assert Dotted(names) == "" + rest == rest;
    } else {
      assert dense + ((names[0] + ".") + rest) == (dense + (names[0] + ".")) + rest;
    }
  }

  method JoinSegments(names: seq<string>) returns (dense: string)
    ensures dense == Dense(names)
  {
    dense := "";
    for i := 0 to |names|
      invariant dense + Dotted(names[i..]) == Dotted(names)
    {
      var n := names[i];
      DottedStep(dense, names[i..]);
      assert names[i..][1..] == names[i + 1..];
      if n != "" {
        dense := dense + (n + ".");
      }
    }
    assert names[|names|..] == [];
    if dense != "" && Last(dense) == '.' {
      dense := dense[..|dense| - 1];
    }
  }

  /** The name of s once the shared prefix is replaced. */
  function DenseOf(s: string, short: seq<string>): string
    requires |short| <= |Split(s)|
  {
    Dense(short + Split(s)[|short|..])
  }

  ghost predicate IsDenseMap(src: seq<string>, short: seq<string>, m: map<string, string>) {
    forall s :: s in src ==> |short| <= |Split(s)| && s in m && m[s] == DenseOf(s, short)
  }

  /** The loop that replaces the prefix; the initial of an empty segment does not exist. */
  method ReplacePrefix(prefix: seq<string>, prefixCut: bool) returns (r: Result<seq<string>, Error>)
    ensures r.Err? <==> prefixCut && "" in prefix
    ensures r.Ok? ==> r.value == Abbreviate(prefix, prefixCut)
    ensures r.Ok? ==>
      |r.value| == |prefix|
      && forall k :: 0 <= k < |prefix| ==> r.value[k] == if prefixCut then prefix[k][..1] else ""
  {
    var short: seq<string> := [];
    for c := 0 to |prefix|
      invariant prefixCut ==> "" !in prefix[..c]
      invariant short == Abbreviate(prefix[..c], prefixCut)
      invariant forall k :: 0 <= k < c ==> short[k] == if prefixCut then prefix[k][..1] else ""
    {
      assert prefix[..c + 1] == prefix[..c] + [prefix[c]];
      if prefixCut && prefix[c] == "" {
        return Err(StringIndexOutOfBounds);
      }
      AbbreviateSnoc(prefix[..c], prefix[c], prefixCut);
      short := short + [if prefixCut then [prefix[c][0]] else ""];
    }
    assert prefix[..|prefix|] == prefix;
    r := Ok(short);
  }

  lemma {:induction false} AbbreviateSnoc(prefix: seq<string>, p: string, prefixCut: bool)
    requires prefixCut ==> "" !in prefix + [p]
    ensures Abbreviate(prefix + [p], prefixCut) ==
      Abbreviate(prefix, prefixCut) + [if prefixCut then (assert p in prefix + [p]; [p[0]]) else ""]
  {
    if prefix != [] {
      assert (prefix + [p])[1..] == prefix[1..] + [p];
      AbbreviateSnoc(prefix[1..], p, prefixCut);
    }
  }

  /** The loop that computes the name of each benchmark. */
  method DenseMap(src: seq<string>, short: seq<string>) returns (result: map<string, string>)
    requires forall s :: s in src ==> |short| <= |Split(s)|
    ensures IsDenseMap(src, short, result) && result.Keys == Elements(src)
  {
    result := map[];
    for i := 0 to |src|
      invariant IsDenseMap(src[..i], short, result) && result.Keys == Elements(src[..i])
    {
      var s := src[i];
      assert s in src && src[..i + 1] == src[..i] + [s];
      var names := Split(s);
      names := short + names[|short|..];
      var dense := JoinSegments(names);
      result := result[s := dense];
    }
    assert src[..|src|] == src;
  }

  method DenseClassNames(lower: string -> bool, src: seq<string>)
    returns (r: Result<map<string, string>, Error>, ghost prefix: seq<string>, ghost prefixCut: bool)
    ensures src == [] ==> r == Ok(map[])
    ensures src != [] ==>
      && IsLongestShared(lower, src, prefix, prefixCut)
      && (r.Err? <==> prefixCut && "" in prefix)
      && (r.Ok? ==> IsDenseMap(src, Abbreviate(prefix, prefixCut), r.value) && r.value.Keys == Elements(src))
  {
    prefix, prefixCut := [], false;
    if src == [] {
      return Ok(map[]), [], false;
    }
    var shared, cut := CommonPrefix(lower, src);
    prefix, prefixCut := shared, cut;
    var short := ReplacePrefix(shared, cut);
    if short.Err? {
      return Err(short.error), prefix, prefixCut;
    }
    var result := DenseMap(src, short.value);
    r := Ok(result);
  }

  // ----- distinct names stay distinct

  lemma {:induction false} DottedSkipsEmpty(names: seq<string>)
    ensures Dotted(names) == Dotted(NonEmpty(names))
  {
    if names != [] {
      DottedSkipsEmpty(names[1..]);
      if names[0] != "" {
        assert NonEmpty(names)[1..] == NonEmpty(names[1..]);
      }
    }
  }

  ghost predicate Proper(names: seq<string>) {
    forall n :: n in names ==> n != "" && '.' !in n
  }

  lemma ProperTail(names: seq<string>)
    requires Proper(names) && names != []
    ensures names[0] != "" && '.' !in names[0] && Proper(names[1..])
    ensures Dotted(names) == names[0] + "." + Dotted(names[1..])
  {
    assert names[0] in names;
    assert forall n :: n in names[1..] ==> n in names;
  }

  lemma FirstChar(a: string, x: string)
    requires '.' !in a
    ensures (a + "." + x)[0] == if a == "" then '.' else a[0]
    ensures a != "" ==> a[0] != '.'
  {
    if a != "" {
      assert a[0] in a;
    }
  }

  /** Two dot-free texts before a dot: the dot tells where they end. */
  lemma {:induction false} FirstDot(a: string, x: string, b: string, y: string)
    requires '.' !in a && '.' !in b && a + "." + x == b + "." + y
    ensures a == b && x == y
  {
    var s, t := a + "." + x, b + "." + y;
    FirstChar(a, x);
    FirstChar(b, y);
    if a == "" && b == "" {
      assert s[1..] == x && t[1..] == y;
    } else if a != "" && b != "" {
      assert s[1..] == a[1..] + "." + x && t[1..] == b[1..] + "." + y;
      FirstDot(a[1..], x, b[1..], y);
      assert a == [a[0]] + a[1..] && b == [b[0]] + b[1..];
    }
  }

  lemma {:induction false} DottedIsInjective(a: seq<string>, b: seq<string>)
    requires Proper(a) && Proper(b) && Dotted(a) == Dotted(b)
    ensures a == b
  {
    if a != [] {
      ProperTail(a);
    }
    if b != [] {
      ProperTail(b);
    }
    if a != [] && b != [] {
      FirstDot(a[0], Dotted(a[1..]), b[0], Dotted(b[1..]));
      DottedIsInjective(a[1..], b[1..]);
      assert a == [a[0]] + a[1..] && b == [b[0]] + b[1..];
    }
  }

  lemma {:induction false} DottedEndsWithDot(a: seq<string>)
    requires Proper(a) && a != []
    ensures |Dotted(a)| >= 2 && Last(Dotted(a)) == '.'
  {
    ProperTail(a);
    if |a| == 1 {
      assert Dotted(a[1..]) == "";
    } else {
      DottedEndsWithDot(a[1..]);
    }
  }

  /** A dense name and the dotted form of its non-empty segments determine each other. */
  lemma DenseForm(names: seq<string>)
    requires forall n :: n in names ==> '.' !in n
    ensures Proper(NonEmpty(names))
    ensures Dense(names) == "" <==> NonEmpty(names) == []
    ensures NonEmpty(names) != [] ==> Dotted(NonEmpty(names)) == Dense(names) + "."
  {
    DottedSkipsEmpty(names);
    if NonEmpty(names) != [] {
      DottedEndsWithDot(NonEmpty(names));
    }
  }

  /** Dense names coincide exactly when the segment lists coincide up to empty segments. */
  lemma DenseIsInjective(a: seq<string>, b: seq<string>)
    requires (forall n :: n in a ==> '.' !in n) && (forall n :: n in b ==> '.' !in n)
    ensures Dense(a) == Dense(b) <==> NonEmpty(a) == NonEmpty(b)
  {
    DenseForm(a);
    DenseForm(b);
    DottedSkipsEmpty(a);
    DottedSkipsEmpty(b);
    if Dense(a) == Dense(b) && NonEmpty(a) != [] {
      DottedIsInjective(NonEmpty(a), NonEmpty(b));
    }
  }

  lemma {:induction false} NonEmptyConcat(a: seq<string>, b: seq<string>)
    ensures NonEmpty(a + b) == NonEmpty(a) + NonEmpty(b)
  {
    if a == [] {
      assert a + b == b;
    } else {
      assert (a + b)[1..] == a[1..] + b;
      NonEmptyConcat(a[1..], b);
    }
  }

  lemma Cancel<X>(p: seq<X>, a: seq<X>, b: seq<X>)
    ensures p + a == p + b <==> a == b
  {
    if p + a == p + b {
      assert a == (p + a)[|p|..] == (p + b)[|p|..] == b;
    }
  }

  lemma SamePrefixCollides(prefix: seq<string>, short: seq<string>, a: seq<string>, b: seq<string>)
    requires forall n :: n in short ==> '.' !in n
    requires (forall n :: n in a ==> '.' !in n) && (forall n :: n in b ==> '.' !in n)
    ensures Dense(short + a) == Dense(short + b) <==> NonEmpty(prefix + a) == NonEmpty(prefix + b)
  {
    DenseIsInjective(short + a, short + b);
    NonEmptyConcat(prefix, a);
    NonEmptyConcat(prefix, b);
    NonEmptyConcat(short, a);
    NonEmptyConcat(short, b);
    Cancel(NonEmpty(prefix), NonEmpty(a), NonEmpty(b));
    Cancel(NonEmpty(short), NonEmpty(a), NonEmpty(b));
  }

  lemma SharedPrefixOf(lower: string -> bool, src: seq<string>, prefix: seq<string>, prefixCut: bool, s: string)
    requires src != [] && IsLongestShared(lower, src, prefix, prefixCut) && s in src
    ensures prefix <= Split(s)
  {
  }

  lemma DenseOfCollides(prefix: seq<string>, short: seq<string>, s: string, t: string)
    requires prefix <= Split(s) && prefix <= Split(t) && |short| == |prefix|
    requires forall n :: n in short ==> '.' !in n
    ensures DenseOf(s, short) == DenseOf(t, short) <==> NonEmpty(Split(s)) == NonEmpty(Split(t))
  {
    var a, b := Split(s)[|prefix|..], Split(t)[|prefix|..];
    SamePrefixCollides(prefix, short, a, b);
    PrefixAndRest(prefix, Split(s));
    PrefixAndRest(prefix, Split(t));
  }

  lemma PrefixAndRest(prefix: seq<string>, names: seq<string>)
    requires prefix <= names
    ensures names == prefix + names[|prefix|..]
  {
    assert prefix == names[..|prefix|];
  }

  /**
   For any names whatsoever: two of them get the same dense name exactly when their
   segments are the same once empty segments are ignored.
   */
  lemma DenseNamesCollide(lower: string -> bool, src: seq<string>, prefix: seq<string>, prefixCut: bool,
                          m: map<string, string>, s: string, t: string)
    requires src != [] && IsLongestShared(lower, src, prefix, prefixCut)
    requires !(prefixCut && "" in prefix) && IsDenseMap(src, Abbreviate(prefix, prefixCut), m)
    requires s in src && t in src
    ensures m[s] == m[t] <==> NonEmpty(Split(s)) == NonEmpty(Split(t))
  {
    SharedPrefixOf(lower, src, prefix, prefixCut, s);
    SharedPrefixOf(lower, src, prefix, prefixCut, t);
    assert forall p :: p in prefix ==> p in Split(s);
    DenseOfCollides(prefix, Abbreviate(prefix, prefixCut), s, t);
  }

  // ----- benchmark names proper: no empty segment

  lemma PiecesOf(c: char, s: string)
    ensures var rest := Pieces(s);
      Pieces([c] + s) == if c == '.' then [""] + rest else [[c] + rest[0]] + rest[1..]
  {
    assert ([c] + s)[1..] == s;
  }

  /** A name can be told from its pieces. */
  lemma {:induction false} PiecesAreFaithful(s: string, t: string)
    requires Pieces(s) == Pieces(t)
    ensures s == t
  {
    if s != "" && t != "" {
      var a, b := Pieces(s[1..]), Pieces(t[1..]);
      SameHead(s[0], a, t[0], b);
      PiecesAreFaithful(s[1..], t[1..]);
      assert s == [s[0]] + s[1..] && t == [t[0]] + t[1..];
    } else {
      NotBlank(s);
      NotBlank(t);
    }
  }

  lemma NotBlank(s: string)
    ensures s != "" ==> Pieces(s) != [""]
  {
    if s != "" {
      var rest := Pieces(s[1..]);
      assert s[0] == '.' ==> |[""] + rest| >= 2;
      assert [s[0]] + rest[0] != "";
    }
  }

  lemma SameHead(c: char, a: seq<string>, d: char, b: seq<string>)
    requires a != [] && b != []
    requires (if c == '.' then [""] + a else [[c] + a[0]] + a[1..])
          == (if d == '.' then [""] + b else [[d] + b[0]] + b[1..])
    ensures c == d && a == b
  {
    var p := if c == '.' then [""] + a else [[c] + a[0]] + a[1..];
    var q := if d == '.' then [""] + b else [[d] + b[0]] + b[1..];
    assert p[0] == q[0] && p[1..] == q[1..];
    if c == '.' {
      assert p[1..] == a && q[1..] == b;
    } else {
      assert p[0][0] == c && q[0][0] == d;
      assert p[0][1..] == a[0] && q[0][1..] == b[0];
      assert a == [a[0]] + a[1..] && b == [b[0]] + b[1..];
    }
  }

  predicate IsProperName(s: string) {
    "" !in Pieces(s)
  }

  lemma {:induction false} NonEmptyKeepsProper(names: seq<string>)
    requires "" !in names
    ensures NonEmpty(names) == names
  {
    if names != [] {
      NonEmptyKeepsProper(names[1..]);
    }
  }

  lemma {:induction false} NoDotOnePiece(s: string)
    requires '.' !in s
    ensures Pieces(s) == [s]
  {
    if s != "" {
      assert s[0] in s && s == [s[0]] + s[1..];
      NoDotOnePiece(s[1..]);
    }
  }

  lemma SplitOfProper(s: string)
    requires IsProperName(s)
    ensures Split(s) == Pieces(s)
  {
    if '.' !in s {
      NoDotOnePiece(s);
    } else {
      assert Last(Pieces(s)) in Pieces(s);
    }
  }

  /** Distinct proper benchmark names always get distinct dense names, and none makes the method fail. */
  lemma ProperNamesStayDistinct(lower: string -> bool, src: seq<string>, prefix: seq<string>, prefixCut: bool,
                                m: map<string, string>, s: string, t: string)
    requires src != [] && IsLongestShared(lower, src, prefix, prefixCut)
    requires forall x :: x in src ==> IsProperName(x)
    requires s in src && t in src && s != t
    ensures "" !in prefix
    ensures IsDenseMap(src, Abbreviate(prefix, prefixCut), m) ==> m[s] != m[t]
  {
    SplitOfProper(src[0]);
    assert src[0] in src;
    SplitOfProper(s);
    SplitOfProper(t);
    NonEmptyKeepsProper(Split(s));
    NonEmptyKeepsProper(Split(t));
    if Pieces(s) == Pieces(t) {
      PiecesAreFaithful(s, t);
    }
    if IsDenseMap(src, Abbreviate(prefix, prefixCut), m) {
      DenseNamesCollide(lower, src, prefix, prefixCut, m, s, t);
    }
  }

  lemma DottedOf(head: string, rest: seq<string>)
    ensures Dotted([head] + rest) == (if head == "" then "" else head + ".") + Dotted(rest)
  {
    assert ([head] + rest)[1..] == rest;
  }

  /** What a dense name is: the shared prefix abbreviated or dropped, the other segments as they are. */
  lemma DenseNameReads(lower: string -> bool, src: seq<string>, prefix: seq<string>, prefixCut: bool,
                       m: map<string, string>, s: string)
    requires src != [] && IsLongestShared(lower, src, prefix, prefixCut) && (prefixCut ==> "" !in prefix)
    requires IsDenseMap(src, Abbreviate(prefix, prefixCut), m) && s in src
    ensures |prefix| <= |Split(s)| && prefix == Split(s)[..|prefix|]
    ensures var rest, short := Split(s)[|prefix|..], Abbreviate(prefix, prefixCut);
      var shown := NonEmpty(short + rest);
      m[s] == if shown == [] then "" else JoinDots(shown)
  {
    DenseIsJoin(Abbreviate(prefix, prefixCut) + Split(s)[|prefix|..]);
    SharedPrefixOf(lower, src, prefix, prefixCut, s);
  }

  lemma TwoSplits()
    ensures Split("a.B") == ["a"] + ["B"] && Split("a..B") == ["a"] + ([""] + ["B"])
  {
    PiecesOf('B', "");
    assert ['B'] + "" == "B" && Pieces("B") == ["B"];
    PiecesOf('.', "B");
    assert ['.'] + "B" == ".B" && Pieces(".B") == [""] + ["B"];
    PiecesOf('.', ".B");
    assert ['.'] + ".B" == "..B" && Pieces("..B") == [""] + ([""] + ["B"]);
    FirstLetter(".B", ["B"]);
    FirstLetter("..B", [""] + ["B"]);
    assert ['a'] + ".B" == "a.B" && ['a'] + "..B" == "a..B";
    assert "a.B"[1] == '.' && "a..B"[1] == '.';
    assert Last(["a"] + ["B"]) == "B" && Last(["a"] + ([""] + ["B"])) == "B";
  }

  lemma FirstLetter(s: string, rest: seq<string>)
    requires Pieces(s) == [""] + rest
    ensures Pieces(['a'] + s) == ["a"] + rest
  {
    PiecesOf('a', s);
    assert ['a'] + "" == "a" && ([""] + rest)[1..] == rest;
  }

  lemma PrefixOfTwo(lower: string -> bool)
    requires lower("a") && !lower("B")
    ensures IsLongestShared(lower, ["a.B", "a..B"], ["a"], false)
  {
    TwoSplits();
    FirstNameShares(lower, "a.B", ["a"]);
    OneMoreName(lower, ["a.B"], "a..B", ["a"], false, 1);
    assert ["a.B"] + ["a..B"] == ["a.B", "a..B"] && ["a"][..1] == ["a"];
  }

  /** With an empty segment the promise breaks: dropping the prefix "a", "a.B" and "a..B" are both shown as "B". */
  lemma EmptySegmentCollides(lower: string -> bool)
    requires lower("a") && !lower("B")
    ensures IsLongestShared(lower, ["a.B", "a..B"], ["a"], false) && Abbreviate(["a"], false) == [""]
    ensures "a.B" != "a..B" && |Split("a.B")| >= 1 && |Split("a..B")| >= 1
    ensures DenseOf("a.B", [""]) == DenseOf("a..B", [""]) == "B"
  {
    PrefixOfTwo(lower);
    ShownAlike();
    assert Abbreviate(["a"], false) == [""] + Abbreviate(["a"][1..], false);
  }

  lemma ShownAlike()
    ensures |Split("a.B")| >= 1 && |Split("a..B")| >= 1
    ensures DenseOf("a.B", [""]) == DenseOf("a..B", [""]) == "B"
  {
    TwoSplits();
    assert (["a"] + ["B"])[1..] == ["B"] && (["a"] + ([""] + ["B"]))[1..] == [""] + ["B"];
    DottedOf("B", []);
    assert ["B"] + [] == ["B"] && "B" + "." + "" == "B.";
    DottedOf("", ["B"]);
    DottedOf("", [""] + ["B"]);
    assert "" + "B." == "B." && "B."[..1] == "B";
  }
}
