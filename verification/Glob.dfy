/** The field-pattern matcher of `src/masking/mod.rs` against a declarative glob. */
module Glob {
  import opened Wrappers
  import opened Text

  /** The declarative reading: a `*` stands for nothing or takes one more character; every
      other character stands for itself. `StarStandsForAnything` gives the usual wording. */
  ghost predicate GlobMatch(p: string, v: string)
    decreases |p| + |v|
  {
    if p == "" then v == ""
    else if p[0] == '*' then GlobMatch(p[1..], v) || (v != "" && GlobMatch(p, v[1..]))
    else v != "" && v[0] == p[0] && GlobMatch(p[1..], v[1..])
  }

  predicate StarFree(p: string) {
    '*' !in p
  }

  predicate StartsStar(p: string) {
    p != "" && p[0] == '*'
  }

  predicate EndsStar(p: string) {
    p != "" && p[|p| - 1] == '*'
  }

  /** The non-empty literal pieces between the stars. */
  function Pieces(p: string): (parts: seq<string>)
    ensures forall k :: 0 <= k < |parts| ==> parts[k] != ""
  {
    NonEmpty(Split(p, '*'))
  }

  /** What is left of `rem` after placing every part at its leftmost position, one after the other. */
  function Place(parts: seq<string>, rem: string): Option<string> {
    if parts == [] then Some(rem)
    else
      match Find(rem, parts[0])
      case None => None
      case Some(i) => Place(parts[1..], rem[i + |parts[0]|..])
  }

  /** Placement of all the parts, the first one anchored when `anchored` holds. */
  function PlaceFrom(anchored: bool, parts: seq<string>, v: string): Option<string> {
    if anchored && parts != [] then
      if parts[0] <= v then Place(parts[1..], v[|parts[0]|..]) else None
    else Place(parts, v)
  }

  /** The value the matcher computes. */
  predicate Accepts(p: string, v: string) {
    p == "*" || p == v ||
    var left := PlaceFrom(!StartsStar(p), Pieces(p), v);
    left.Some? && (EndsStar(p) || left.value == "")
  }

  /** The matcher as it runs, over `remainder` and `first`. */
  method MatchesPattern(pattern: string, value: string) returns (r: bool)
    ensures r == Accepts(pattern, value)
  {
    if pattern == "*" || pattern == value {
      return true;
    }
    var remainder := value;
    var parts := Pieces(pattern);
    var anchoredStart := !StartsStar(pattern);
    var anchoredEnd := !EndsStar(pattern);
    var first := true;
    for k := 0 to |parts|
      invariant first == (k == 0)
      invariant PlaceFrom(anchoredStart, parts, value)
             == PlaceFrom(first && anchoredStart, parts[k..], remainder)
    {
      var part := parts[k];
      assert parts[k..][1..] == parts[k + 1..];
      if first && anchoredStart {
        if !(part <= remainder) {
          return false;
        }
        remainder := remainder[|part|..];
      } else {
        var at := Find(remainder, part);
        if at.None? {
          return false;
        }
        remainder := remainder[at.value + |part|..];
      }
      first := false;
    }
    return !anchoredEnd || remainder == "";
  }

  // ---------- laws of the declarative glob ----------

  lemma {:induction false} GlobReflexive(p: string)
    ensures GlobMatch(p, p)
  {
    if p != "" {
      GlobReflexive(p[1..]);
    }
  }

  lemma {:induction false} StarWidens(q: string, v: string, k: nat)
    requires StartsStar(q) && k <= |v| && GlobMatch(q, v[k..])
    ensures GlobMatch(q, v)
  {
    if k == 0 {
      assert v[0..] == v;
    } else {
      assert v[1..][k - 1..] == v[k..];
      StarWidens(q, v[1..], k - 1);
    }
  }

  /** What a matching star has taken. */
  lemma {:induction false} StarTakes(q: string, v: string) returns (k: nat)
    requires StartsStar(q) && GlobMatch(q, v)
    ensures k <= |v| && GlobMatch(q[1..], v[k..])
  {
    if GlobMatch(q[1..], v) {
      k := 0;
      assert v[0..] == v;
    } else {
      var j := StarTakes(q, v[1..]);
      k := j + 1;
      assert v[1..][j..] == v[k..];
    }
  }

  /** A leading `*` stands for any string. */
  lemma StarStandsForAnything(p: string, v: string)
    ensures GlobMatch("*" + p, v) <==> exists a: string, b: string :: v == a + b && GlobMatch(p, b)
  {
    var q := "*" + p;
    assert q[1..] == p;
    if GlobMatch(q, v) {
      var k := StarTakes(q, v);
      assert v == v[..k] + v[k..];
    }
    if a: string, b: string :| v == a + b && GlobMatch(p, b) {
      assert v[|a|..] == b;
      StarWidens(q, v, |a|);
    }
  }

  /** A literal prefix of the pattern is a literal prefix of the value. */
  lemma {:induction false} LiteralPrefix(l: string, p: string, v: string)
    requires StarFree(l)
    ensures GlobMatch(l + p, v) <==> l <= v && GlobMatch(p, v[|l|..])
  {
    if l == "" {
      assert l + p == p && v[|l|..] == v;
    } else {
      assert (l + p)[1..] == l[1..] + p;
      if v != "" && v[0] == l[0] {
        LiteralPrefix(l[1..], p, v[1..]);
        assert l <= v <==> l[1..] <= v[1..];
        if l <= v {
          assert v[1..][|l[1..]|..] == v[|l|..];
        }
      }
    }
  }

  lemma DoubleStar(q: string, v: string)
    requires StartsStar(q)
    ensures GlobMatch("*" + q, v) <==> GlobMatch(q, v)
  {
    assert ("*" + q)[1..] == q;
    if GlobMatch("*" + q, v) {
      var k := StarTakes("*" + q, v);
      StarWidens(q, v, k);
    }
  }

  lemma LeftmostLosesNothing(l: string, q: string, v: string)
    requires StarFree(l) && StartsStar(q)
    requires GlobMatch("*" + (l + q), v)
    ensures Find(v, l).Some? && GlobMatch(q, v[Find(v, l).value + |l|..])
  {
    var k := StarTakes("*" + (l + q), v);
    assert ("*" + (l + q))[1..] == l + q;
    LiteralPrefix(l, q, v[k..]);
    assert OccursAt(l, v, k);
    var i := Find(v, l).value;
    var rest := v[i + |l|..];
    assert v[k..][|l|..] == rest[k - i..];
    StarWidens(q, rest, k - i);
  }

  lemma LeftmostIsSound(l: string, q: string, v: string)
    requires StarFree(l)
    requires Find(v, l).Some? && GlobMatch(q, v[Find(v, l).value + |l|..])
    ensures GlobMatch("*" + (l + q), v)
  {
    var i := Find(v, l).value;
    assert v[i..][|l|..] == v[i + |l|..];
    LiteralPrefix(l, q, v[i..]);
    assert ("*" + (l + q))[1..] == l + q;
    StarWidens("*" + (l + q), v, i);
  }

  /** Between two stars, the leftmost placement of a literal never loses a match. */
  lemma LeftmostIsEnough(l: string, q: string, v: string)
    requires StarFree(l) && StartsStar(q)
    ensures GlobMatch("*" + (l + q), v) <==>
            Find(v, l).Some? && GlobMatch(q, v[Find(v, l).value + |l|..])
  {
    if GlobMatch("*" + (l + q), v) {
      LeftmostLosesNothing(l, q, v);
    } else if Find(v, l).Some? && GlobMatch(q, v[Find(v, l).value + |l|..]) {
      LeftmostIsSound(l, q, v);
      assert false;
    }
  }

  ghost predicate EndsWith(v: string, l: string) {
    |l| <= |v| && v[|v| - |l|..] == l
  }

  lemma StarLiteralEnd(l: string, v: string)
    requires StarFree(l)
    ensures GlobMatch("*" + l, v) <==> EndsWith(v, l)
  {
    var q := "*" + l;
    assert q[1..] == l && l + "" == l;
    if GlobMatch(q, v) {
      var k := StarTakes(q, v);
      LiteralPrefix(l, "", v[k..]);
    }
    if EndsWith(v, l) {
      LiteralPrefix(l, "", l);
      StarWidens(q, v, |v| - |l|);
    }
  }

  // ---------- the pieces of a pattern ----------

  lemma PiecesStar(p: string)
    ensures Pieces("*" + p) == Pieces(p)
  {
    var s := "*" + p;
    assert s[1..] == p;
    assert Split(s, '*') == [s[..0]] + Split(p, '*');
    assert (["" ] + Split(p, '*'))[1..] == Split(p, '*');
  }

  lemma PiecesLiteral(l: string)
    requires StarFree(l) && l != ""
    ensures Pieces(l) == [l]
  {
    assert Until(l, {'*'}) == |l|;
    assert NonEmpty([l]) == [l] + NonEmpty([]);
  }

  lemma PiecesLiteralStar(l: string, p: string)
    requires StarFree(l) && l != ""
    ensures Pieces(l + "*" + p) == [l] + Pieces(p)
  {
    var s := l + "*" + p;
    assert s == l + ("*" + p);
    UntilAt(l, "*" + p, {'*'});
    assert s[..|l|] == l && s[|l| + 1..] == p;
    assert Split(s, '*') == [l] + Split(p, '*');
    assert ([l] + Split(p, '*'))[1..] == Split(p, '*');
  }

  lemma {:induction false} SplitIsClean(s: string, sep: char)
    ensures forall k :: 0 <= k < |Split(s, sep)| ==> sep !in Split(s, sep)[k]
  {
    var n := Until(s, {sep});
    if n < |s| {
      SplitIsClean(s[n + 1..], sep);
    }
  }

  lemma {:induction false} NonEmptyKeeps(parts: seq<string>)
    ensures forall part :: part in NonEmpty(parts) ==> part in parts
  {
    if parts != [] {
      NonEmptyKeeps(parts[1..]);
    }
  }

  lemma PiecesAreLiterals(p: string)
    ensures forall part :: part in Pieces(p) ==> StarFree(part) && part != ""
  {
    SplitIsClean(p, '*');
    NonEmptyKeeps(Split(p, '*'));
  }

  // ---------- placement against the glob ----------

  /** The piece a closed pattern puts last, and what the earlier pieces leave for it. */
  function LastPiece(p: string): string
    requires Pieces(p) != []
  {
    Pieces(p)[|Pieces(p)| - 1]
  }

  function LeftForLast(anchored: bool, parts: seq<string>, v: string): Option<string>
    requires parts != []
  {
    PlaceFrom(anchored, parts[..|parts| - 1], v)
  }

  ghost predicate LastFits(anchored: bool, parts: seq<string>, v: string)
    requires parts != []
  {
    var left := LeftForLast(anchored, parts, v);
    left.Some? && EndsWith(left.value, parts[|parts| - 1])
  }

  /** A pattern that ends in a literal which does not also begin it. */
  predicate Closed(p: string) {
    !StarFree(p) && !EndsStar(p)
  }

  lemma SplitAtStar(p: string) returns (l: string, q: string)
    ensures p == l + q && StarFree(l) && (q == "" || StartsStar(q))
  {
    var n := Until(p, {'*'});
    l, q := p[..n], p[n..];
  }

  lemma FrontOf(l: string, parts: seq<string>)
    requires parts != []
    ensures ([l] + parts)[..|parts|] == [l] + parts[..|parts| - 1]
  {
  }

  lemma PlaceCons(l: string, parts: seq<string>, v: string)
    ensures Place([l] + parts, v) ==
            match Find(v, l)
            case None => None
            case Some(i) => Place(parts, v[i + |l|..])
  {
    hide Find;
    assert ([l] + parts)[1..] == parts;
  }

  lemma PlaceTail(l: string, parts: seq<string>, v: string)
    requires parts != []
    ensures LastFits(false, [l] + parts, v) <==>
            Find(v, l).Some? && LastFits(false, parts, v[Find(v, l).value + |l|..])
  {
    hide Find;
    FrontOf(l, parts);
    PlaceCons(l, parts[..|parts| - 1], v);
  }

  lemma PlaceAnchoredTail(l: string, parts: seq<string>, v: string)
    requires parts != []
    ensures LastFits(true, [l] + parts, v) <==> l <= v && LastFits(false, parts, v[|l|..])
  {
    hide Find, Place;
    FrontOf(l, parts);
    assert ([l] + parts[..|parts| - 1])[1..] == parts[..|parts| - 1];
  }

  /** What greedy placement says of a pattern that follows a star. */
  ghost predicate PlacesAfterStar(p: string, v: string) {
    if p == "" || EndsStar(p) then Place(Pieces(p), v).Some?
    else Pieces(p) != [] && LastFits(false, Pieces(p), v)
  }

  lemma PlacesAfterLiteral(l: string, p: string, v: string)
    requires StarFree(l) && l != "" && (p == "" || EndsStar(p) || Pieces(p) != [])
    ensures Pieces(l + "*" + p) == [l] + Pieces(p)
    ensures PlacesAfterStar(l + "*" + p, v) <==>
            Find(v, l).Some? && PlacesAfterStar(p, v[Find(v, l).value + |l|..])
  {
    hide Find, Pieces;
    PiecesLiteralStar(l, p);
    if p == "" || EndsStar(p) {
      PlaceCons(l, Pieces(p), v);
    } else {
      PlaceTail(l, Pieces(p), v);
    }
  }

  lemma PlacesNothing(v: string)
    ensures PlacesAfterStar("", v)
  {
    NoPieces();
  }

  lemma PlacesLiteral(l: string, v: string)
    requires StarFree(l) && l != ""
    ensures Pieces(l) == [l] && (PlacesAfterStar(l, v) <==> EndsWith(v, l))
  {
    hide Find, Pieces;
    PiecesLiteral(l);
    assert LeftForLast(false, [l], v) == Some(v);
  }

  lemma PlacesDoubleStar(p: string, v: string)
    requires p == "" || EndsStar(p) || Pieces(p) != []
    ensures Pieces("*" + p) == Pieces(p) && (PlacesAfterStar("*" + p, v) <==> PlacesAfterStar(p, v))
  {
    hide Find, Pieces, Place;
    PiecesStar(p);
    NoPieces();
  }

  /** After a star, greedy placement decides the glob, up to where the last piece must sit. */
  lemma {:induction false} PlacedAfterStar(p: string, v: string)
    ensures p == "" || EndsStar(p) || Pieces(p) != []
    ensures GlobMatch("*" + p, v) <==> PlacesAfterStar(p, v)
    decreases |p|
  {
    hide Find, GlobMatch, Pieces, PlacesAfterStar;
    var l, q := SplitAtStar(p);
    if p == "" {
      StarLiteralEnd("", v);
      PlacesNothing(v);
    } else if l == "" {
      assert p == "*" + p[1..];
      DoubleStar(p, v);
      PlacedAfterStar(p[1..], v);
      PlacesDoubleStar(p[1..], v);
    } else if q == "" {
      assert l == p;
      PlacesLiteral(l, v);
      StarLiteralEnd(l, v);
    } else {
      var rest := q[1..];
      assert q == "*" + rest && p == l + "*" + rest;
      LeftmostIsEnough(l, q, v);
      PlacedAfterStar(rest, if Find(v, l).Some? then v[Find(v, l).value + |l|..] else v);
      PlacesAfterLiteral(l, rest, v);
    }
  }

  lemma NoPieces()
    ensures Pieces("") == []
  {
    assert Split("", '*') == [""];
  }

  /** What greedy placement says of a pattern that holds a star. */
  ghost predicate Places(p: string, v: string) {
    if EndsStar(p) then PlaceFrom(!StartsStar(p), Pieces(p), v).Some?
    else Pieces(p) != [] && LastFits(!StartsStar(p), Pieces(p), v)
  }

  /** The glob, in terms of the placement the matcher makes. */
  lemma Placed(p: string, v: string)
    requires !StarFree(p)
    ensures GlobMatch(p, v) <==> Places(p, v)
    ensures Closed(p) ==> Pieces(p) != [] && (!StartsStar(p) ==> |Pieces(p)| > 1)
  {
    hide Find, GlobMatch, Split, NonEmpty;
    var l, q := SplitAtStar(p);
    assert q != "";
    var rest := q[1..];
    assert q == "*" + rest;
    LiteralPrefix(l, q, v);
    if l == "" {
      assert p == "*" + rest && v[0..] == v;
      PiecesStar(rest);
      PlacedAfterStar(rest, v);
      assert rest == "" ==> EndsStar(p);
    } else {
      assert p == l + "*" + rest;
      PlacedAfterStar(rest, if l <= v then v[|l|..] else v);
      PlacesAfterLiteral(l, rest, v);
      PlacesAnchored(l, rest, v);
      assert EndsStar(p) <==> rest == "" || EndsStar(rest);
    }
  }

  lemma PlacesAnchored(l: string, rest: string, v: string)
    requires StarFree(l) && l != "" && Pieces(l + "*" + rest) == [l] + Pieces(rest)
    requires rest == "" || EndsStar(rest) || Pieces(rest) != []
    ensures Places(l + "*" + rest, v) <==> l <= v && PlacesAfterStar(rest, v[|l|..])
  {
    hide Find, Pieces, Place;
    var p := l + "*" + rest;
    assert EndsStar(p) <==> rest == "" || EndsStar(rest);
    assert p[0] == l[0];
    if EndsStar(p) {
      assert ([l] + Pieces(rest))[1..] == Pieces(rest);
    } else {
      PlaceAnchoredTail(l, Pieces(rest), v);
    }
  }

  lemma {:induction false} PlaceLast(parts: seq<string>, v: string)
    requires parts != []
    ensures Place(parts, v) ==
            match Place(parts[..|parts| - 1], v)
            case None => None
            case Some(left) => Place([parts[|parts| - 1]], left)
  {
    hide Find;
    var front := parts[..|parts| - 1];
    if front == [] {
      assert parts == [parts[|parts| - 1]];
    } else {
      assert front[1..] == parts[1..][..|parts| - 2];
      match Find(v, parts[0])
      case None =>
      case Some(i) => PlaceLast(parts[1..], v[i + |parts[0]|..]);
    }
  }

  lemma PlaceFromLast(anchored: bool, parts: seq<string>, v: string)
    requires parts != [] && (anchored ==> |parts| > 1)
    ensures PlaceFrom(anchored, parts, v) ==
            match LeftForLast(anchored, parts, v)
            case None => None
            case Some(left) => Place([parts[|parts| - 1]], left)
  {
    hide Find, Place;
    if anchored {
      assert parts[..|parts| - 1][1..] == parts[1..][..|parts| - 2];
      if parts[0] <= v {
        PlaceLast(parts[1..], v[|parts[0]|..]);
      }
    } else {
      PlaceLast(parts, v);
    }
  }

  lemma StarFreeGlob(p: string, v: string)
    requires StarFree(p)
    ensures GlobMatch(p, v) <==> p == v
    ensures Accepts(p, v) <==> p == v
  {
    assert p + "" == p;
    LiteralPrefix(p, "", v);
    if p != "" {
      PiecesLiteral(p);
      assert [p][1..] == [];
    }
  }

  /** The leftmost place for the last piece is already the end of the value. */
  predicate LastPieceFirstFoundAtEnd(p: string, v: string)
    requires Pieces(p) != []
  {
    var left := LeftForLast(!StartsStar(p), Pieces(p), v);
    left.Some? && |LastPiece(p)| <= |left.value| &&
    Find(left.value, LastPiece(p)) == Some(|left.value| - |LastPiece(p)|)
  }

  lemma PlaceOne(l: string, v: string)
    ensures Place([l], v) == if Find(v, l).Some? then Some(v[Find(v, l).value + |l|..]) else None
  {
  }

  lemma PlaceNothing(v: string)
    ensures Place([], v) == Some(v)
  {
  }

  lemma FoundAtEnd(p: string, v: string)
    requires Pieces(p) != [] && LastPieceFirstFoundAtEnd(p, v)
    ensures LastFits(!StartsStar(p), Pieces(p), v)
  {
    hide Place, Pieces;
    var left := LeftForLast(!StartsStar(p), Pieces(p), v).value;
    assert OccursAt(LastPiece(p), left, |left| - |LastPiece(p)|);
  }

  lemma ClosedAccepts(p: string, v: string)
    requires Closed(p) && p != v
    ensures Pieces(p) != []
    ensures Accepts(p, v) <==> LastPieceFirstFoundAtEnd(p, v)
  {
    hide Find, Place, Pieces, GlobMatch, Places;
    Placed(p, v);
    PlaceFromLast(!StartsStar(p), Pieces(p), v);
    var left := LeftForLast(!StartsStar(p), Pieces(p), v);
    if left.Some? {
      PlaceOne(LastPiece(p), left.value);
    }
  }

  /** What the matcher accepts, by placement: every glob match except those of a closed pattern
      whose last piece also occurs earlier in what is left for it. */
  lemma AcceptsByPlacement(p: string, v: string)
    ensures Closed(p) ==> Pieces(p) != []
    ensures Accepts(p, v) <==>
            GlobMatch(p, v) && (Closed(p) && p != v ==> LastPieceFirstFoundAtEnd(p, v))
  {
    hide Find, Place, Pieces, GlobMatch;
    GlobReflexive(p);
    if StarFree(p) {
      StarFreeGlob(p, v);
    } else if Closed(p) {
      Placed(p, v);
      if p != v {
        ClosedAccepts(p, v);
        if LastPieceFirstFoundAtEnd(p, v) {
          FoundAtEnd(p, v);
        }
      }
    } else {
      Placed(p, v);
      if p == "*" {
        NoPieces();
        PiecesStar("");
        assert "*" + "" == "*";
        PlaceNothing(v);
      }
    }
  }

  // ---------- the patterns, and the values, on which nothing is lost ----------

  lemma {:induction false} PlaceIsSuffix(parts: seq<string>, v: string)
    ensures Place(parts, v).Some? ==> EndsWith(v, Place(parts, v).value)
  {
    if parts != [] && Find(v, parts[0]).Some? {
      PlaceIsSuffix(parts[1..], v[Find(v, parts[0]).value + |parts[0]|..]);
    }
  }

  lemma LeftIsSuffix(anchored: bool, parts: seq<string>, v: string)
    requires parts != []
    ensures LeftForLast(anchored, parts, v).Some? ==>
              EndsWith(v, LeftForLast(anchored, parts, v).value)
  {
    hide Find, Place;
    var front := parts[..|parts| - 1];
    PlaceIsSuffix(front, v);
    if anchored && front != [] && front[0] <= v {
      PlaceIsSuffix(front[1..], v[|front[0]|..]);
    }
  }

  // ---------- the shortest match ----------

  lemma FindLonger(u: string, w: string, part: string)
    requires Find(u, part).Some?
    ensures Find(u + w, part) == Find(u, part)
  {
    hide Find;
    var i := Find(u, part).value;
    assert (u + w)[i..] == u[i..] + w;
    assert OccursAt(part, u + w, i);
    var j := Find(u + w, part).value;
    assert (u + w)[j..] == u[j..] + w;
    assert OccursAt(part, u, j);
  }

  lemma FindShorter(u: string, w: string, part: string)
    requires Find(u + w, part).Some? && Find(u + w, part).value + |part| <= |u|
    ensures Find(u, part) == Find(u + w, part)
  {
    hide Find;
    var i := Find(u + w, part).value;
    assert (u + w)[i..] == u[i..] + w;
    assert OccursAt(part, u, i);
    FindLonger(u, w, part);
  }

  /** What greedy placement does is not changed by what follows. */
  lemma {:induction false} PlaceLonger(parts: seq<string>, u: string, w: string)
    requires Place(parts, u).Some?
    ensures Place(parts, u + w) == Some(Place(parts, u).value + w)
    decreases |parts|
  {
    hide Find;
    if parts != [] {
      FindLonger(u, w, parts[0]);
      var k := Find(u, parts[0]).value + |parts[0]|;
      assert (u + w)[k..] == u[k..] + w;
      PlaceLonger(parts[1..], u[k..], w);
    }
  }

  lemma PlaceStep(parts: seq<string>, v: string)
    requires parts != [] && Place(parts, v).Some?
    ensures Find(v, parts[0]).Some?
    ensures var k := Find(v, parts[0]).value + |parts[0]|;
            Place(parts, v) == Place(parts[1..], v[k..]) && k + |Place(parts, v).value| <= |v|
  {
    hide Find, EndsWith, OccursAt;
    var rest := v[Find(v, parts[0]).value + |parts[0]|..];
    assert Place(parts, v) == Place(parts[1..], rest);
    PlaceLeaves(parts[1..], rest);
  }

  lemma PlaceLeaves(parts: seq<string>, v: string)
    requires Place(parts, v).Some?
    ensures |Place(parts, v).value| <= |v|
  {
    hide Place;
    PlaceIsSuffix(parts, v);
  }

  /** Nor by taking away what it has left. */
  lemma {:induction false} PlaceShorter(parts: seq<string>, u: string, w: string)
    requires Place(parts, u + w).Some? && |w| <= |Place(parts, u + w).value|
    ensures Place(parts, u).Some?
    decreases |parts|
  {
    if parts != [] {
      hide Find, OccursAt;
      PlaceStep(parts, u + w);
      FindShorter(u, w, parts[0]);
      var k := Find(u, parts[0]).value + |parts[0]|;
      assert (u + w)[k..] == u[k..] + w;
      PlaceShorter(parts[1..], u[k..], w);
      assert Place(parts, u) == Place(parts[1..], u[k..]);
    }
  }

  lemma PlaceFromLonger(anchored: bool, parts: seq<string>, u: string, w: string)
    requires PlaceFrom(anchored, parts, u).Some?
    ensures PlaceFrom(anchored, parts, u + w) == Some(PlaceFrom(anchored, parts, u).value + w)
  {
    hide Find, Place;
    if anchored && parts != [] {
      assert (u + w)[|parts[0]|..] == u[|parts[0]|..] + w;
      PlaceLonger(parts[1..], u[|parts[0]|..], w);
    } else {
      PlaceLonger(parts, u, w);
    }
  }

  lemma PlaceFromShorter(anchored: bool, parts: seq<string>, u: string, w: string)
    requires PlaceFrom(anchored, parts, u + w).Some? && |w| <= |PlaceFrom(anchored, parts, u + w).value|
    ensures PlaceFrom(anchored, parts, u).Some?
  {
    hide Find, Place;
    if anchored && parts != [] {
      PlaceIsSuffix(parts[1..], (u + w)[|parts[0]|..]);
      assert (u + w)[|parts[0]|..] == u[|parts[0]|..] + w;
      PlaceShorter(parts[1..], u[|parts[0]|..], w);
    } else {
      PlaceShorter(parts, u, w);
    }
  }

  /** An early occurrence of the last piece is the end of a shorter match. */
  lemma EarlierIsShorter(p: string, v: string)
    requires Closed(p) && GlobMatch(p, v) && Pieces(p) != [] && !LastPieceFirstFoundAtEnd(p, v)
    ensures exists m :: 0 <= m < |v| && GlobMatch(p, v[..m])
  {
    hide Find, Place, PlaceFrom, Pieces, GlobMatch;
    Placed(p, v);
    var parts, last := Pieces(p), LastPiece(p);
    var front, anchored := parts[..|parts| - 1], !StartsStar(p);
    LeftIsSuffix(anchored, parts, v);
    var left := PlaceFrom(anchored, front, v).value;
    assert OccursAt(last, left, |left| - |last|);
    var i := Find(left, last).value;
    var m := |v| - (|left| - i - |last|);
    var u, w := v[..m], v[m..];
    assert v == u + w;
    PlaceFromShorter(anchored, front, u, w);
    PlaceFromLonger(anchored, front, u, w);
    var rest := PlaceFrom(anchored, front, u).value;
    assert left == rest + w && rest == left[..i + |last|];
    assert rest[i..] == left[i..][..|last|] == last;
    assert LastFits(anchored, parts, u);
    Placed(p, u);
  }

  /** A shorter match ends in an early occurrence of the last piece. */
  lemma ShorterIsEarlier(p: string, v: string, m: nat)
    requires Closed(p) && m < |v| && GlobMatch(p, v[..m]) && Pieces(p) != []
    ensures !LastPieceFirstFoundAtEnd(p, v)
  {
    hide Find, Place, PlaceFrom, Pieces, GlobMatch;
    var u, w := v[..m], v[m..];
    assert v == u + w;
    Placed(p, u);
    var parts, last := Pieces(p), LastPiece(p);
    var front, anchored := parts[..|parts| - 1], !StartsStar(p);
    PlaceFromLonger(anchored, front, u, w);
    var rest := PlaceFrom(anchored, front, u).value;
    var i := |rest| - |last|;
    assert (rest + w)[i..] == last + w;
    assert OccursAt(last, rest + w, i);
  }

  function NonStars(s: string): nat {
    if s == "" then 0 else (if s[0] == '*' then 0 else 1) + NonStars(s[1..])
  }

  /** A value has as many other characters as the pattern it matches, or more. */
  lemma {:induction false} MatchHasLiterals(p: string, v: string)
    requires GlobMatch(p, v)
    ensures NonStars(p) <= NonStars(v)
    decreases |p| + |v|
  {
    if p != "" {
      if p[0] != '*' {
        MatchHasLiterals(p[1..], v[1..]);
      } else if GlobMatch(p[1..], v) {
        MatchHasLiterals(p[1..], v);
      } else {
        MatchHasLiterals(p, v[1..]);
      }
    }
  }

  lemma {:induction false} PrefixHasFewer(p: string, m: nat)
    requires m < |p| && p[|p| - 1] != '*'
    ensures NonStars(p[..m]) < NonStars(p)
  {
    if m > 0 {
      assert p[..m][1..] == p[1..][..m - 1];
      PrefixHasFewer(p[1..], m - 1);
    } else if |p| > 1 {
      assert p[1..][..0] == p[..0];
      PrefixHasFewer(p[1..], 0);
    }
  }

  /** No proper prefix matches. */
  ghost predicate Shortest(p: string, v: string) {
    forall m :: 0 <= m < |v| ==> !GlobMatch(p, v[..m])
  }

  /** What the matcher accepts, exactly: the glob matches; of a pattern with a star that ends in a
      literal, only those no proper prefix of which matches as well. */
  lemma AcceptsExactly(p: string, v: string)
    ensures Accepts(p, v) <==> GlobMatch(p, v) && (Closed(p) ==> Shortest(p, v))
  {
    hide Accepts, GlobMatch, Pieces, LastPieceFirstFoundAtEnd;
    AcceptsByPlacement(p, v);
    if Closed(p) && p == v {
      AcceptsItself(p);
    } else if Closed(p) && GlobMatch(p, v) {
      if LastPieceFirstFoundAtEnd(p, v) {
        forall m | 0 <= m < |v|
          ensures !GlobMatch(p, v[..m])
        {
          if GlobMatch(p, v[..m]) {
            ShorterIsEarlier(p, v, m);
          }
        }
      } else {
        EarlierIsShorter(p, v);
      }
    }
  }

  lemma AcceptsItself(p: string)
    requires Closed(p)
    ensures Accepts(p, p) && GlobMatch(p, p) && Shortest(p, p)
  {
    hide GlobMatch, Pieces, Place;
    GlobReflexive(p);
    forall m | 0 <= m < |p|
      ensures !GlobMatch(p, p[..m])
    {
      if GlobMatch(p, p[..m]) {
        MatchHasLiterals(p, p[..m]);
        PrefixHasFewer(p, m);
      }
    }
  }

  /** A closed pattern agrees with the glob on every value that holds its last piece once. */
  lemma OnceIsEnough(p: string, v: string)
    requires Closed(p) ==>
               Pieces(p) != [] &&
               forall i, j :: OccursAt(LastPiece(p), v, i) && OccursAt(LastPiece(p), v, j) ==> i == j
    ensures Accepts(p, v) <==> GlobMatch(p, v)
  {
    hide Place, Pieces, GlobMatch, Accepts;
    AcceptsByPlacement(p, v);
    if Closed(p) && GlobMatch(p, v) {
      Placed(p, v);
      LeftIsSuffix(!StartsStar(p), Pieces(p), v);
      var left, l := LeftForLast(!StartsStar(p), Pieces(p), v).value, LastPiece(p);
      var gone, at := |v| - |left|, |left| - |l|;
      assert OccursAt(l, left, at);
      assert v[gone + at..] == left[at..];
      assert OccursAt(l, v, gone + at);
      var i := Find(left, l).value;
      assert v[gone + i..] == left[i..];
      assert OccursAt(l, v, gone + i);
    }
  }

  function Concat(parts: seq<string>): string {
    if parts == [] then "" else parts[0] + Concat(parts[1..])
  }

  lemma {:induction false} PlaceConcat(parts: seq<string>, tail: string)
    ensures Place(parts, Concat(parts) + tail) == Some(tail)
  {
    if parts == [] {
      assert Concat(parts) + tail == tail;
    } else {
      var rest := Concat(parts[1..]) + tail;
      assert Concat(parts) + tail == parts[0] + rest;
      assert (parts[0] + rest)[|parts[0]|..] == rest;
      PlaceConcat(parts[1..], tail);
    }
  }

  lemma {:induction false} ConcatIsStarFree(parts: seq<string>)
    requires forall part :: part in parts ==> StarFree(part)
    ensures StarFree(Concat(parts))
  {
    if parts != [] {
      assert StarFree(parts[0]);
      ConcatIsStarFree(parts[1..]);
    }
  }

  lemma LeftOfConcat(anchored: bool, parts: seq<string>, tail: string)
    requires parts != [] && (anchored ==> |parts| > 1)
    ensures LeftForLast(anchored, parts, Concat(parts[..|parts| - 1]) + tail) == Some(tail)
  {
    var front := parts[..|parts| - 1];
    PlaceConcat(front, tail);
    if anchored {
      var rest := Concat(front[1..]) + tail;
      assert Concat(front) + tail == front[0] + rest;
      assert (front[0] + rest)[|front[0]|..] == rest;
      PlaceConcat(front[1..], tail);
    }
  }

  /** Every closed pattern misses some glob match: its pieces in a row, the last one twice. */
  lemma ClosedMisses(p: string) returns (v: string)
    requires Closed(p)
    ensures GlobMatch(p, v) && !Accepts(p, v)
  {
    hide Find, Place, Pieces, GlobMatch;
    Placed(p, "");
    PiecesAreLiterals(p);
    var parts := Pieces(p);
    var front, l := parts[..|parts| - 1], LastPiece(p);
    v := Concat(front) + (l + l);
    LeftOfConcat(!StartsStar(p), parts, l + l);
    assert (l + l)[|l|..] == l;
    Placed(p, v);
    ConcatIsStarFree(front);
    assert l in parts;
    assert OccursAt(l, l + l, 0);
    ClosedAccepts(p, v);
  }

  /** The patterns on which the matcher is a glob matcher, for every value: those without a
      star and those that end in one. */
  lemma CompletePatterns(p: string)
    ensures (forall v :: Accepts(p, v) <==> GlobMatch(p, v)) <==> StarFree(p) || EndsStar(p)
  {
    if Closed(p) {
      var v := ClosedMisses(p);
    } else {
      forall v
        ensures Accepts(p, v) <==> GlobMatch(p, v)
      {
        AcceptsByPlacement(p, v);
      }
    }
  }
}
