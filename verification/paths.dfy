/** The path algebra of src/file_utils.c: checking, joining, relativizing and resolving paths. */
module Paths {
  import opened Bytes

  const MAX_PATH_LEN := 512

  const DOT_DOT: text := [DOT, DOT]
  const CURRENT: text := [99, 117, 114, 114, 101, 110, 116]  // current
  const VERSIONS: text := [DOT, 118, 101, 114, 115, 105, 111, 110, 115]  // .versions
  const TRASH: text := [DOT, 116, 114, 97, 115, 104]  // .trash
  const SYNCING: text := [DOT, 115, 121, 110, 99, 105, 110, 103]  // .syncing

  /** sanitize_rel_path(r) == 0. */
  predicate Accepted(r: text) {
    && r != [] && r[0] != SLASH
    && r != [DOT] && r != DOT_DOT
    && !Contains(r, [DOT, DOT, SLASH]) && !Contains(r, [SLASH, DOT, DOT]) && !Contains(r, [SLASH, SLASH])
  }

  function SkipSlashes(s: text): text {
    if s != [] && s[0] == SLASH then SkipSlashes(s[1..]) else s
  }

  predicate EndsWithSlash(s: text) { s != [] && s[|s| - 1] == SLASH }

  /** What a directory's path is followed by before the entry name. */
  function AsPrefix(base: text): text {
    if EndsWithSlash(base) then base else base + [SLASH]
  }

  /** join_path into a buffer of MAX_PATH_LEN bytes; None is the error return. */
  function JoinPath(base: text, rel: text): Option<text> {
    var out := AsPrefix(base) + SkipSlashes(rel);
    if 0 < |out| < MAX_PATH_LEN then Some(out) else None
  }

  /** The length of `root` without its trailing slashes, but at least one byte of it. */
  function RootLen(root: text): (n: nat)
    ensures n <= |root|
  {
    if |root| > 1 && EndsWithSlash(root) then RootLen(root[..|root| - 1]) else |root|
  }

  /** get_relative_path into a buffer of MAX_PATH_LEN bytes. */
  function GetRelative(root: text, path: text): Option<text> {
    var n := RootLen(root);
    if !(root[..n] <= path) then None
    else
      var rest := path[n..];
      var rel := if rest != [] && rest[0] == SLASH then rest[1..] else rest;
      var out := if rel == [] then [DOT] else rel;
      if |out| < MAX_PATH_LEN && Accepted(out) then Some(out) else None
  }

  // ---- Round trips ----------------------------------------------------------------------------

  lemma AcceptedIsPlain(r: text)
    requires Accepted(r)
    ensures SkipSlashes(r) == r
  {
  }

  /** The root has at most one redundant trailing slash: it does not end in two behind its first byte. */
  ghost predicate Tidy(root: text) {
    |root| > 2 ==> root[|root| - 1] != SLASH || root[|root| - 2] != SLASH
  }

  lemma TidyIff(root: text)
    ensures Tidy(root) <==> |root| - RootLen(root) <= 1
  {
    RootLenStops(root);
    var n := RootLen(root);
    if |root| - n > 1 {
      assert root[|root| - 1] == SLASH && root[|root| - 2] == SLASH;
    }
  }

  /** Relativizing undoes joining exactly when the root has at most one redundant trailing slash. */
  lemma RelativeOfJoin(root: text, r: text)
    requires Accepted(r) && JoinPath(root, r).Some?
    ensures GetRelative(root, JoinPath(root, r).value) == Some(r) <==> Tidy(root)
  {
    TidyIff(root);
    RootLenStops(root);
    AcceptedIsPlain(r);
    StripPrefix(root, r);
  }

  /** What get_relative_path sees behind the root in a joined path. */
  lemma StripPrefix(root: text, u: text)
    ensures var n, path := RootLen(root), AsPrefix(root) + u;
      && root[..n] <= path
      && path[n..] == AsPrefix(root)[n..] + u
      && (EndsWithSlash(root) ==> AsPrefix(root)[n..] == root[n..])
      && (!EndsWithSlash(root) ==> AsPrefix(root)[n..] == [SLASH])
  {
    RootLenStops(root);
  }

  lemma {:induction false} RootLenStops(root: text)
    ensures forall i :: RootLen(root) <= i < |root| ==> root[i] == SLASH
    ensures RootLen(root) < |root| ==> EndsWithSlash(root)
    ensures RootLen(root) > 1 ==> root[RootLen(root) - 1] != SLASH
    ensures root != [] ==> RootLen(root) >= 1
  {
    if |root| > 1 && EndsWithSlash(root) {
      RootLenStops(root[..|root| - 1]);
    }
  }

  lemma JoinIsInjective(root: text, q: text, r: text)
    requires Accepted(q) && Accepted(r)
    requires JoinPath(root, q).Some? && JoinPath(root, q) == JoinPath(root, r)
    ensures q == r
  {
    AcceptedIsPlain(q);
    AcceptedIsPlain(r);
    var prefix := AsPrefix(root);
    assert q == (prefix + q)[|prefix|..] && r == (prefix + r)[|prefix|..];
  }

  // ---- Components -------------------------------------------------------------------------------

  /** The pieces between slashes. */
  function Components(s: text): (cs: seq<text>)
    ensures cs != []
  {
    if s == [] then [[]]
    else if s[0] == SLASH then [[]] + Components(s[1..])
    else
      var cs := Components(s[1..]);
      [[s[0]] + cs[0]] + cs[1..]
  }

  function Unsplit(cs: seq<text>): text
    requires cs != []
  {
    if |cs| == 1 then cs[0] else cs[0] + [SLASH] + Unsplit(cs[1..])
  }

  ghost predicate SlashFree(cs: seq<text>) { forall c :: c in cs ==> SLASH !in c }

  lemma {:induction false} UnsplitOfComponents(s: text)
    ensures Unsplit(Components(s)) == s && SlashFree(Components(s))
  {
    if s != [] {
      UnsplitOfComponents(s[1..]);
      var cs, ds := Components(s[1..]), Components(s);
      assert s == [s[0]] + s[1..];
      if s[0] == SLASH {
        assert ds[1..] == cs;
      } else {
        assert ds[1..] == cs[1..] && ds[0] == [s[0]] + cs[0];
        if |cs| > 1 {
          ConcatAssociative([s[0]] + cs[0], [SLASH], Unsplit(cs[1..]));
          ConcatAssociative(cs[0], [SLASH], Unsplit(cs[1..]));
          ConcatAssociative([s[0]], cs[0], [SLASH] + Unsplit(cs[1..]));
        }
      }
    }
  }

  lemma {:induction false} ComponentsOfName(c: text)
    requires SLASH !in c
    ensures Components(c) == [c]
  {
    if c != [] {
      ComponentsOfName(c[1..]);
      assert [c[0]] + c[1..] == c;
    }
  }

  lemma {:induction false} ComponentsConcat(a: text, b: text)
    ensures Components(a + [SLASH] + b) == Components(a) + Components(b)
  {
    var s := a + [SLASH] + b;
    if a == [] {
      assert s[1..] == b;
    } else {
      ComponentsConcat(a[1..], b);
      assert s[1..] == a[1..] + [SLASH] + b && s[0] == a[0];
      var cs, ds := Components(a[1..]), Components(b);
      ConcatTail(cs, ds);
      if a[0] == SLASH {
        ConcatAssociative([[]], cs, ds);
      } else {
        ConcatAssociative([[a[0]] + cs[0]], cs[1..], ds);
      }
    }
  }

  lemma {:induction false} ComponentsOfUnsplit(cs: seq<text>)
    requires cs != [] && SlashFree(cs)
    ensures Components(Unsplit(cs)) == cs
  {
    ComponentsOfName(cs[0]);
    if |cs| > 1 {
      ComponentsOfUnsplit(cs[1..]);
      ComponentsConcat(cs[0], Unsplit(cs[1..]));
    }
  }

  lemma DotDotInFront(rest: text)
    ensures Contains(DOT_DOT + [SLASH] + rest, [DOT, DOT, SLASH])
    ensures Contains([SLASH] + DOT_DOT + rest, [SLASH, DOT, DOT])
  {
    assert OccursAt(DOT_DOT + [SLASH] + rest, 0, [DOT, DOT, SLASH]);
    assert OccursAt([SLASH] + DOT_DOT + rest, 0, [SLASH, DOT, DOT]);
  }

  /** A component ".." leaves its mark in the string, whichever place it has. */
  lemma {:induction false} DotDotShows(cs: seq<text>, i: nat)
    requires i < |cs| && cs[i] == DOT_DOT
    ensures var s := Unsplit(cs);
      if i > 0 then Contains(s, [SLASH, DOT, DOT]) else s == DOT_DOT || Contains(s, [DOT, DOT, SLASH])
  {
    hide Contains;
    if |cs| > 1 {
      var rest := Unsplit(cs[1..]);
      assert Unsplit(cs) == cs[0] + [SLASH] + rest;
      if i == 0 {
        DotDotInFront(rest);
      } else if i == 1 {
        assert rest == DOT_DOT + rest[2..];
        DotDotInFront(rest[2..]);
        ContainsBehind(cs[0], [SLASH] + DOT_DOT + rest[2..], [SLASH, DOT, DOT]);
        assert cs[0] + ([SLASH] + DOT_DOT + rest[2..]) == cs[0] + [SLASH] + rest;
      } else {
        DotDotShows(cs[1..], i - 1);
        ContainsBehind(cs[0] + [SLASH], rest, [SLASH, DOT, DOT]);
      }
    }
  }

  lemma AcceptedHasNoDotDot(r: text)
    requires Accepted(r)
    ensures DOT_DOT !in Components(r)
  {
    UnsplitOfComponents(r);
    if DOT_DOT in Components(r) {
      var i: nat :| i < |Components(r)| && Components(r)[i] == DOT_DOT;
      DotDotShows(Components(r), i);
    }
  }

  // ---- Which paths are accepted ---------------------------------------------------------------------

  ghost predicate Empty(c: text) { c == [] }

  ghost predicate BeginsInDots(c: text) { |c| >= 2 && c[0] == DOT && c[1] == DOT }

  ghost predicate EndsInDots(c: text) { |c| >= 2 && c[|c| - 2] == DOT && c[|c| - 1] == DOT }

  lemma ContainsOneFurther(s: text, word: text)
    requires s != [] && word != []
    ensures Contains(s, word) <==> OccursAt(s, 0, word) || Contains(s[1..], word)
  {
    if Contains(s, word) {
      var i: nat :| i <= |s| && OccursAt(s, i, word);
      if i > 0 {
        assert s[1..][i - 1..i - 1 + |word|] == s[i..i + |word|];
        assert OccursAt(s[1..], i - 1, word);
      }
    }
    if Contains(s[1..], word) {
      assert s == [s[0]] + s[1..];
      ContainsBehind([s[0]], s[1..], word);
    }
  }

  /** The first piece of a string is followed by a slash or by nothing. */
  lemma {:induction false} FirstPiece(s: text)
    ensures var cs := Components(s);
      && |cs[0]| <= |s| && s[..|cs[0]|] == cs[0] && SLASH !in cs[0]
      && (|cs| == 1 <==> |cs[0]| == |s|) && (|cs| > 1 ==> s[|cs[0]|] == SLASH)
  {
    if s != [] && s[0] != SLASH {
      FirstPiece(s[1..]);
    }
  }

  /** Some piece from number `from` on, the last `but` ones left out, is as `p` says. */
  ghost predicate SomePiece(cs: seq<text>, from: nat, but: nat, p: text -> bool) {
    exists i :: from <= i < |cs| - but && p(cs[i])
  }

  lemma PieceInFront(cs: seq<text>, but: nat, p: text -> bool)
    requires cs != []
    ensures SomePiece(cs, 0, but, p) <==> (|cs| > but && p(cs[0])) || SomePiece(cs, 1, but, p)
  {
  }

  lemma PiecesBehind(cs: seq<text>, ds: seq<text>, but: nat, p: text -> bool)
    requires cs != []
    ensures ds != [] && cs[1..] == ds[1..] ==> (SomePiece(cs, 1, but, p) <==> SomePiece(ds, 1, but, p))
    ensures cs[1..] == ds ==> (SomePiece(cs, 1, but, p) <==> SomePiece(ds, 0, but, p))
  {
    if ds != [] && cs[1..] == ds[1..] {
      assert |cs| == |ds| && forall i :: 1 <= i < |cs| ==> cs[i] == cs[1..][i - 1] == ds[1..][i - 1] == ds[i];
    }
    if cs[1..] == ds && SomePiece(ds, 0, but, p) {
      var i :| 0 <= i < |ds| - but && p(ds[i]);
      assert cs[i + 1] == ds[i];
    }
  }

  /** The forbidden substrings right at the front, and the pieces behind the first byte. */
  lemma ForbiddenInFront(s: text)
    requires s != []
    ensures var ds := Components(s[1..]);
      && (OccursAt(s, 0, [SLASH, SLASH]) <==> s[0] == SLASH && |ds| > 1 && ds[0] == [])
      && (OccursAt(s, 0, [SLASH, DOT, DOT]) <==> s[0] == SLASH && BeginsInDots(ds[0]))
      && (OccursAt(s, 0, [DOT, DOT, SLASH]) <==> s[0] == DOT && |ds| > 1 && ds[0] == [DOT])
  {
    FirstPiece(s[1..]);
    var t, d := s[1..], Components(s[1..])[0];
    hide Components;
    assert forall i :: 0 <= i < |t| ==> t[i] == s[i + 1];
    assert forall i :: 0 <= i < |d| ==> d[i] == t[..|d|][i] == t[i];
  }

  /** What the forbidden substrings mean for the pieces. */
  lemma {:induction false} ForbiddenIff(s: text)
    ensures var cs := Components(s);
      && (Contains(s, [SLASH, SLASH]) <==> SomePiece(cs, 1, 1, Empty))
      && (Contains(s, [SLASH, DOT, DOT]) <==> SomePiece(cs, 1, 0, BeginsInDots))
      && (Contains(s, [DOT, DOT, SLASH]) <==> SomePiece(cs, 0, 1, EndsInDots))
  {
    if s != [] {
      var cs, ds := Components(s), Components(s[1..]);
      ForbiddenIff(s[1..]);
      ForbiddenInFront(s);
      ContainsOneFurther(s, [SLASH, SLASH]);
      ContainsOneFurther(s, [SLASH, DOT, DOT]);
      ContainsOneFurther(s, [DOT, DOT, SLASH]);
      assert if s[0] == SLASH then cs[0] == [] && cs[1..] == ds else cs[0] == [s[0]] + ds[0] && cs[1..] == ds[1..];
      hide Contains, SomePiece, Components, OccursAt;
      PiecesBehind(cs, ds, 1, Empty);
      PiecesBehind(cs, ds, 0, BeginsInDots);
      PiecesBehind(cs, ds, 1, EndsInDots);
      PieceInFront(ds, 1, Empty);
      PieceInFront(ds, 0, BeginsInDots);
      PieceInFront(ds, 1, EndsInDots);
      PieceInFront(cs, 1, EndsInDots);
    } else {
      NothingForbidden();
    }
  }

  lemma NothingForbidden()
    ensures Components([]) == [[]]
    ensures !Contains([], [SLASH, SLASH]) && !Contains([], [SLASH, DOT, DOT]) && !Contains([], [DOT, DOT, SLASH])
  {
  }

  /**
   * The pieces of a path that is not "." or "..", does not begin with a slash or consist of nothing,
   * and in which no piece between two slashes is empty, no piece but the last ends in "..", and no
   * piece but the first begins with "..".
   */
  ghost predicate Proper(cs: seq<text>) {
    && cs != [] && cs != [Ascii(".")] && cs != [Ascii("..")] && cs[0] != []
    && (forall i :: 0 < i < |cs| - 1 ==> cs[i] != [])
    && (forall i :: 0 <= i < |cs| - 1 ==> !EndsInDots(cs[i]))
    && (forall i :: 0 < i < |cs| ==> !BeginsInDots(cs[i]))
  }

  lemma DotsSpelled()
    ensures Ascii(".") == [DOT] && Ascii("..") == DOT_DOT
  {
  }

  /** sanitize_rel_path accepts exactly the paths with proper pieces. */
  lemma AcceptedIff(r: text)
    ensures Accepted(r) <==> Proper(Components(r))
  {
    DotsSpelled();
    ForbiddenIff(r);
    FirstPiece(r);
    UnsplitOfComponents(r);
    ComponentsOfName([DOT]);
    ComponentsOfName(DOT_DOT);
    hide Contains, Components, Ascii;
  }

  // ---- Lexical resolution -------------------------------------------------------------------------

  /** One lookup step from the directory `at`. */
  function Enter(at: seq<text>, c: text): seq<text> {
    if c == [] || c == [DOT] then at
    else if c == DOT_DOT then if at == [] then [] else at[..|at| - 1]
    else at + [c]
  }

  function Walk(at: seq<text>, cs: seq<text>): seq<text>
    decreases cs
  {
    if cs == [] then at else Walk(Enter(at, cs[0]), cs[1..])
  }

  /** The file a path string denotes when no component is a symbolic link. */
  function Lexical(s: text): seq<text> { Walk([], Components(s)) }

  /** The entry names a relative path spells out. */
  function Names(r: text): seq<text> { Walk([], Components(r)) }

  lemma {:induction false} WalkConcat(at: seq<text>, cs: seq<text>, ds: seq<text>)
    ensures Walk(at, cs + ds) == Walk(Walk(at, cs), ds)
    decreases cs
  {
    if cs == [] {
      assert cs + ds == ds;
    } else {
      WalkConcat(Enter(at, cs[0]), cs[1..], ds);
      assert (cs + ds)[1..] == cs[1..] + ds;
    }
  }

  /** Without "..", a walk only ever goes down from where it starts. */
  lemma {:induction false} WalkDown(at: seq<text>, cs: seq<text>)
    requires DOT_DOT !in cs
    ensures Walk(at, cs) == at + Walk([], cs)
    ensures forall k :: 0 <= k <= |cs| ==> at <= Walk(at, cs[..k])
    decreases cs
  {
    if cs != [] {
      var c := cs[0];
      WalkDown(Enter(at, c), cs[1..]);
      WalkDown(Enter([], c), cs[1..]);
      assert Enter(at, c) == at + Enter([], c);
      forall k | 0 < k <= |cs|
        ensures at <= Walk(at, cs[..k])
      {
        assert cs[..k][1..] == cs[1..][..k - 1];
      }
    }
  }

  /** Resolving a joined string continues the walk where the base led. */
  lemma LexicalOfPrefixed(base: text, r: text)
    ensures Lexical(AsPrefix(base) + r) == Walk(Lexical(base), Components(r))
  {
    if EndsWithSlash(base) {
      var b := base[..|base| - 1];
      assert base == b + [SLASH] + [] && base + r == b + [SLASH] + r;
      ComponentsConcat(b, []);
      ComponentsConcat(b, r);
      WalkConcat([], Components(b), [[]]);
      WalkConcat([], Components(b), Components(r));
    } else {
      assert base + [SLASH] + r == (base + [SLASH]) + r;
      ComponentsConcat(base, r);
      WalkConcat([], Components(base), Components(r));
    }
  }

  /** current_path (src/server.c) and local_target_path (src/transfer.c). */
  function CurrentPath(root: text, rel: text): Option<text> {
    if !Accepted(rel) then None
    else
      var current := JoinPath(root, CURRENT);
      if current.None? then None else JoinPath(current.value, rel)
  }

  /** What stands between the root and the path in a string, and how long it is. */
  function Glue(root: text): (g: text)
    ensures |g| <= 1
  {
    if root != [] && root[|root| - 1] == SLASH then [] else [SLASH]
  }

  lemma JoinPlain(base: text, rel: text)
    requires rel != [] && rel[0] != SLASH
    ensures JoinPath(base, rel) ==
      if |base| + |Glue(base)| + |rel| < 512 then Some(base + Glue(base) + rel) else None
  {
    assert AsPrefix(base) == base + Glue(base);
  }

  lemma Spelled()
    ensures Ascii("current/") == CURRENT + [SLASH] && Ascii(".syncing") == SYNCING
    ensures |CURRENT| == 7 && |SYNCING| == 8 && CURRENT[0] != SLASH && CURRENT[6] != SLASH
  {
  }

  /** The string built for a path below current/, and when there is one. */
  lemma CurrentPathIs(root: text, rel: text)
    ensures CurrentPath(root, rel) ==
      if Proper(Components(rel)) && |root| + |Glue(root)| + |Ascii("current/")| + |rel| < 512
      then Some(root + Glue(root) + Ascii("current/") + rel) else None
  {
    hide Contains, Components, Proper, Ascii, JoinPath, Glue;
    AcceptedIff(rel);
    Spelled();
    if Accepted(rel) {
      var base := root + Glue(root) + CURRENT;
      JoinPlain(root, CURRENT);
      JoinPlain(base, rel);
      GlueOf(root + Glue(root), CURRENT);
      ConcatAssociative(root + Glue(root), CURRENT, [SLASH]);
    }
  }

  lemma GlueOf(base: text, name: text)
    requires name != [] && name[|name| - 1] != SLASH
    ensures Glue(base + name) == [SLASH]
  {
  }

  /**
   * An accepted path resolves to its own entries under `current/` of the resolved root, at no
   * point of the lookup rises above `current/`, and denotes `current/` itself just in case it
   * spells out no entry at all.
   */
  lemma StaysUnderCurrent(root: text, rel: text, k: nat)
    requires CurrentPath(root, rel).Some? && k <= |Components(rel)|
    ensures Lexical(CurrentPath(root, rel).value) == Lexical(root) + [CURRENT] + Names(rel)
    ensures Lexical(root) + [CURRENT] <= Walk(Lexical(root) + [CURRENT], Components(rel)[..k])
    ensures DOT_DOT !in Components(rel)
  {
    var current := JoinPath(root, CURRENT).value;
    AcceptedHasNoDotDot(rel);
    AcceptedIsPlain(rel);
    ComponentsOfName(CURRENT);
    LexicalOfPrefixed(root, CURRENT);
    LexicalOfPrefixed(current, rel);
    WalkDown(Lexical(root) + [CURRENT], Components(rel));
    assert Walk(Lexical(root), [CURRENT]) == Lexical(root) + [CURRENT];
  }

  // ---- The directory part -----------------------------------------------------------------------------

  /** What ensure_parent_dir_exists keeps of a path: everything before the last slash. */
  function Dirname(s: text): text {
    if s == [] then [] else if s[|s| - 1] == SLASH then s[..|s| - 1] else Dirname(s[..|s| - 1])
  }

  function Basename(s: text): (r: text)
    ensures SLASH !in r
  {
    if s == [] || s[|s| - 1] == SLASH then [] else Basename(s[..|s| - 1]) + [s[|s| - 1]]
  }

  lemma {:induction false} SplitLast(s: text)
    ensures if SLASH in s then s == Dirname(s) + [SLASH] + Basename(s) else Dirname(s) == [] && Basename(s) == s
  {
    if s != [] && s[|s| - 1] != SLASH {
      var init, last := s[..|s| - 1], s[|s| - 1];
      assert s == init + [last];
      SplitLast(init);
      if SLASH in s {
        assert SLASH in init;
        ConcatAssociative(Dirname(init) + [SLASH], Basename(init), [last]);
      }
    }
  }

  lemma {:induction false} DirnameOfJoin(a: text, b: text)
    ensures Dirname(a + [SLASH] + b) == if SLASH in b then a + [SLASH] + Dirname(b) else a
  {
    var s := a + [SLASH] + b;
    if b == [] || b[|b| - 1] == SLASH {
      assert s[..|s| - 1] == if b == [] then a else a + [SLASH] + b[..|b| - 1];
    } else {
      var init := b[..|b| - 1];
      assert b == init + [b[|b| - 1]];
      assert s[..|s| - 1] == a + [SLASH] + init;
      DirnameOfJoin(a, init);
    }
  }

  lemma WalkOne(cs: seq<text>, c: text)
    ensures Walk([], cs + [c]) == Enter(Walk([], cs), c)
  {
    WalkConcat([], cs, [c]);
  }

  /** The components of a path: those of its directory part, if it has one, and its last one. */
  lemma ComponentsOfParts(d: text, n: text)
    requires SLASH !in n
    ensures Components(d + [SLASH] + n) == Components(d) + [n] && Components(n) == [n]
  {
    ComponentsConcat(d, n);
    ComponentsOfName(n);
  }

  lemma StagingName(at: seq<text>, n: text)
    ensures Enter(at, n + SYNCING) == at + [n + SYNCING]
    ensures n != DOT_DOT ==> Enter(at, n) == at || Enter(at, n) == at + [n]
  {
  }

  /** How the names of a path, of its directory part and of its staging file go together. */
  lemma NamesOfParts(r: text)
    requires Accepted(r)
    ensures Names(r + SYNCING) == Names(Dirname(r)) + [Basename(r) + SYNCING]
    ensures Names(r) == Names(Dirname(r)) || Names(r) == Names(Dirname(r)) + [Basename(r)]
  {
    AcceptedHasNoDotDot(r);
    SplitLast(r);
    var d, n := Dirname(r), Basename(r);
    hide Walk, Components, Enter, Dirname, Basename, Accepted;
    StagingName(Walk([], Components(d)), n);
    StagingName(Walk([], []), n);
    if SLASH in r {
      assert r + SYNCING == d + [SLASH] + (n + SYNCING);
      ComponentsOfParts(d, n);
      ComponentsOfParts(d, n + SYNCING);
      WalkOne(Components(d), n);
      WalkOne(Components(d), n + SYNCING);
      assert (Components(d) + [n])[|Components(d)|] == n;
    } else {
      ComponentsOfParts([], n);
      ComponentsOfParts([], n + SYNCING);
      assert [] + [n] == [n] && [] + [n + SYNCING] == [n + SYNCING];
      WalkOne([], n);
      WalkOne([], n + SYNCING);
      assert [n][0] == n;
      NoNames();
    }
  }

  lemma NoNames()
    ensures Walk([], []) == [] && Names([]) == []
  {
  }

  // ---- Paths of tree nodes ------------------------------------------------------------------------

  /** A directory entry's name. */
  ghost predicate EntryName(n: text) {
    n != [] && SLASH !in n && NUL !in n && n != [DOT] && n != DOT_DOT
  }

  /** The string a walk from `root` builds for the node reached through `names`. */
  function NodePath(root: text, names: seq<text>): text
    requires names != []
  {
    if |names| == 1 then AsPrefix(root) + names[0]
      else AsPrefix(NodePath(root, names[..|names| - 1])) + names[|names| - 1]
  }

  lemma {:induction false} UnsplitLast(cs: seq<text>, c: text)
    requires cs != []
    ensures Unsplit(cs + [c]) == Unsplit(cs) + [SLASH] + c
  {
    assert (cs + [c])[1..] == cs[1..] + [c];
    if |cs| > 1 {
      UnsplitLast(cs[1..], c);
      assert cs[0] + [SLASH] + (Unsplit(cs[1..]) + [SLASH] + c) == (cs[0] + [SLASH] + Unsplit(cs[1..])) + [SLASH] + c;
    }
  }

  lemma NameEndsPath(prefix: text, n: text)
    requires EntryName(n)
    ensures !EndsWithSlash(prefix + n) && AsPrefix(prefix + n) == prefix + n + [SLASH]
  {
    assert n[|n| - 1] in n;
  }

  lemma {:induction false} NodePathIsUnsplit(root: text, names: seq<text>)
    requires names != [] && forall n :: n in names ==> EntryName(n)
    ensures NodePath(root, names) == AsPrefix(root) + Unsplit(names)
    ensures !EndsWithSlash(NodePath(root, names))
  {
    hide EntryName, EndsWithSlash, AsPrefix;
    var init, last := names[..|names| - 1], names[|names| - 1];
    assert last in names && names == init + [last];
    if init != [] {
      NodePathIsUnsplit(root, init);
      UnsplitLast(init, last);
      hide Unsplit;
      assert init[|init| - 1] in names;
      var prefix := NodePath(root, init);
      PrefixOfPlain(prefix);
      NameEndsPath(AsPrefix(prefix), last);
    } else {
      NameEndsPath(AsPrefix(root), last);
    }
  }

  lemma PrefixOfPlain(s: text)
    requires !EndsWithSlash(s)
    ensures AsPrefix(s) == s + [SLASH]
  {
  }

  /** Two nodes with the same relative path are the same node. */
  lemma DistinctNodesDistinctPaths(root: text, xs: seq<text>, ys: seq<text>)
    requires xs != [] && forall n :: n in xs ==> EntryName(n)
    requires ys != [] && forall n :: n in ys ==> EntryName(n)
    requires GetRelative(root, NodePath(root, xs)).Some?
    requires GetRelative(root, NodePath(root, xs)) == GetRelative(root, NodePath(root, ys))
    ensures xs == ys
  {
    RelativeOfNode(root, xs);
    RelativeOfNode(root, ys);
    ComponentsOfUnsplit(xs);
    ComponentsOfUnsplit(ys);
  }

  /** The relative path of an accepted node is its entry names joined by slashes. */
  lemma RelativeOfNode(root: text, names: seq<text>)
    requires names != [] && forall n :: n in names ==> EntryName(n)
    requires GetRelative(root, NodePath(root, names)).Some?
    ensures GetRelative(root, NodePath(root, names)) == Some(Unsplit(names))
  {
    NodePathIsUnsplit(root, names);
    RootLenStops(root);
    var u := Unsplit(names);
    assert names[0] in names && names[0][0] in names[0];
    assert u != [] && u[0] == names[0][0] && u[0] != SLASH;
    StripPrefix(root, u);
  }

  lemma FirstName(names: seq<text>)
    requires names != [] && forall n :: n in names ==> EntryName(n)
    ensures names[0] != [] && Unsplit(names) != [] && Unsplit(names)[0] == names[0][0] != SLASH
  {
    assert names[0] in names && names[0][0] in names[0];
  }

  lemma {:induction false} UnsplitConcat(cs: seq<text>, ds: seq<text>)
    requires cs != [] && ds != []
    ensures Unsplit(cs + ds) == Unsplit(cs) + [SLASH] + Unsplit(ds)
  {
    if |cs| > 1 {
      UnsplitConcat(cs[1..], ds);
      assert (cs + ds)[1..] == cs[1..] + ds;
      assert cs[0] + [SLASH] + (Unsplit(cs[1..]) + [SLASH] + Unsplit(ds)) ==
        (cs[0] + [SLASH] + Unsplit(cs[1..])) + [SLASH] + Unsplit(ds);
    } else {
      assert (cs + ds)[1..] == ds;
    }
  }

  /** When a node has a relative path. */
  lemma NodePasses(root: text, names: seq<text>)
    requires names != [] && forall n :: n in names ==> EntryName(n)
    ensures GetRelative(root, NodePath(root, names)).Some? <==>
      Tidy(root) && Accepted(Unsplit(names)) && |Unsplit(names)| < MAX_PATH_LEN
  {
    TidyIff(root);
    NodePathIsUnsplit(root, names);
    RootLenStops(root);
    FirstName(names);
    var u, n := Unsplit(names), RootLen(root);
    StripPrefix(root, u);
    if |root| - n > 1 {
      var rest := (AsPrefix(root) + u)[n..];
      assert rest[0] == SLASH && rest[1] == SLASH;
    }
  }
}
