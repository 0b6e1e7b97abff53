/**
 * `UserController.extractVideoId`: the helper that pulls the video id out of a
 * YouTube watch, short-link or embed URL with `String.split`. Because `split`
 * drops trailing empty pieces, the array index it applies may fall past the
 * end; that outcome is the `ArrayIndexOutOfBounds` error.
 */
module VideoId {
  import opened Wrappers
  import opened JavaText

  const WatchMarker: string := "youtube.com/watch?v="
  const ShortLinkMarker: string := "youtu.be/"
  const EmbedMarker: string := "youtube.com/embed/"

  /** The watch branch splits on the literal `v=` and then on `&`. */
  const WatchDelimiter: Pattern := Literal("v=")

  /**
   * The short-link branch splits on the regular expression `youtu.be/`, whose
   * `.` matches any character but a line terminator, and then on `?`.
   */
  const ShortLinkDelimiter: Pattern := Literal("youtu") + [AnyChar] + Literal("be/")

  /** The embed branch splits on the literal `embed/` and then on `?`. */
  const EmbedDelimiter: Pattern := Literal("embed/")

  /** `url.split(delimiter)[1].split(stop)[0]`, with each array index checked. */
  function SecondPieceUpTo(url: string, delimiter: Pattern, stop: char): Result<string, IndexError>
    requires |delimiter| > 0
  {
    var piece :- Element(Split(url, delimiter), 1);
    Element(Split(piece, [Lit(stop)]), 0)
  }

  /**
   * `id` is the text of `rest` before the first `stop` character or the first
   * match of `delimiter`, whichever comes first (all of `rest` when neither occurs).
   */
  predicate IsIdPrefix(rest: string, delimiter: Pattern, stop: char, id: string) {
    && |id| <= |rest| && id == rest[..|id|]
    && (forall j :: 0 <= j < |id| ==> rest[j] != stop && !MatchesAt(rest, delimiter, j))
    && (|id| == |rest| || rest[|id|] == stop || MatchesAt(rest, delimiter, |id|))
  }

  /**
   * What one branch of the extraction yields, stated without `split`: let `rest`
   * be the URL after the first match of `delimiter`, and `piece` the part of
   * `rest` before the next match. A successful result is the part of `rest`
   * before the next `stop` or `delimiter`; that part being non-empty guarantees
   * success; a URL that ends at that first match fails; and in general the
   * extraction fails exactly when `rest` holds nothing but further matches, or
   * `piece` is non-empty and holds nothing but `stop` characters.
   */
  predicate CutsAfterFirstMatch(url: string, delimiter: Pattern, stop: char, r: Result<string, IndexError>)
    requires |delimiter| > 0
  {
    match FirstMatch(url, delimiter, 0)
    case None => false
    case Some(i) =>
      i + |delimiter| <= |url| &&
      var rest := url[i + |delimiter|..];
      var piece := rest[..FirstPieceEnd(rest, delimiter)];
      && (r.Ok? ==> IsIdPrefix(rest, delimiter, stop, r.value))
      && (rest != [] && rest[0] != stop && !MatchesAt(rest, delimiter, 0) ==> r.Ok?)
      && (rest == [] ==> r.Err?)
      && (r.Err? <==> MatchesOnly(rest, delimiter) || (piece != [] && MatchesOnly(piece, [Lit(stop)])))
  }

  /**
   * `url.split(delimiter)[1]` is the text after the first match up to the next
   * one; it exists when that text is non-empty and is missing when the URL ends
   * at the first match.
   */
  lemma {:induction false} SecondPiece(url: string, delimiter: Pattern, i: nat)
    requires |delimiter| > 0
    requires FirstMatch(url, delimiter, 0) == Some(i)
    ensures i + |delimiter| <= |url|
    ensures var rest := url[i + |delimiter|..];
            var piece := rest[..FirstPieceEnd(rest, delimiter)];
            && (Element(Split(url, delimiter), 1).Ok? ==> Element(Split(url, delimiter), 1).value == piece)
            && (piece != [] ==> Element(Split(url, delimiter), 1).Ok?)
            && (rest == [] ==> Element(Split(url, delimiter), 1).Err?)
  {
    var rest := url[i + |delimiter|..];
    var raw := RawSplit(url, delimiter);
    assert raw == [url[..i]] + RawSplit(rest, delimiter);
    assert raw[1] == rest[..FirstPieceEnd(rest, delimiter)];
    if rest == [] {
      assert RawSplit(rest, delimiter) == [[]];
    }
  }

  /**
   * `piece.split(stop)[0]` is the text of `piece` before its first `stop`; it
   * exists whenever that text is non-empty.
   */
  lemma {:induction false} FirstPieceByChar(piece: string, stop: char, e: nat)
    requires e <= |piece|
    requires forall j :: 0 <= j < e ==> piece[j] != stop
    requires e == |piece| || piece[e] == stop
    ensures Element(Split(piece, [Lit(stop)]), 0).Ok? ==> Element(Split(piece, [Lit(stop)]), 0).value == piece[..e]
    ensures e > 0 ==> Element(Split(piece, [Lit(stop)]), 0).Ok?
  {
    var stopPattern := [Lit(stop)];
    forall j | 0 <= j <= |piece|
      ensures MatchesAt(piece, stopPattern, j) <==> j < |piece| && piece[j] == stop
    {
      SingleCharMatchesAt(piece, stop, j);
    }
    assert FirstPieceEnd(piece, stopPattern) == e;
  }

  /** The split-and-index helper behaves as `CutsAfterFirstMatch` describes. */
  lemma {:induction false} SecondPieceUpToSpec(url: string, delimiter: Pattern, stop: char)
    requires |delimiter| > 0
    requires FirstMatch(url, delimiter, 0).Some?
    ensures CutsAfterFirstMatch(url, delimiter, stop, SecondPieceUpTo(url, delimiter, stop))
  {
    var i := FirstMatch(url, delimiter, 0).value;
    var r := SecondPieceUpTo(url, delimiter, stop);
    SecondPiece(url, delimiter, i);
    CutIsIdPrefix(url, delimiter, stop, i);
    CutSucceeds(url, delimiter, stop, i);
    CutFails(url, delimiter, stop, i);
    CutsFromFacts(url, delimiter, stop, r, i);
  }

  /** `split(delimiter)[1]` exists exactly when the text after the first match is not all further matches. */
  lemma {:induction false} SecondPieceExists(url: string, delimiter: Pattern, i: nat)
    requires |delimiter| > 0
    requires FirstMatch(url, delimiter, 0) == Some(i)
    ensures i + |delimiter| <= |url|
    ensures Element(Split(url, delimiter), 1).Ok? <==> !MatchesOnly(url[i + |delimiter|..], delimiter)
  {
    var rest := url[i + |delimiter|..];
    RawSplitStep(url, delimiter, i);
    SplitLonger(url, delimiter, 1);
    RawSplitAllEmpty(rest, delimiter);
    TextAfterHead(RawSplit(url, delimiter), url[..i], RawSplit(rest, delimiter));
  }

  /** Some string after the head of `xs == [h] + t` is non-empty exactly when not all of `t` is empty. */
  lemma {:induction false} TextAfterHead(xs: seq<string>, h: string, t: seq<string>)
    requires xs == [h] + t
    ensures (exists k :: 1 <= k < |xs| && xs[k] != []) <==> !AllEmpty(t)
  {
    if exists k :: 1 <= k < |xs| && xs[k] != [] {
      var k :| 1 <= k < |xs| && xs[k] != [];
      assert t[k - 1] == xs[k];
    }
    if !AllEmpty(t) {
      var k :| 0 <= k < |t| && t[k] != [];
      assert xs[k + 1] == t[k];
    }
  }

  /** `piece.split(stop)[0]` is missing exactly when `piece` is non-empty and all `stop` characters. */
  lemma {:induction false} FirstPieceByCharFails(piece: string, stop: char)
    ensures Element(Split(piece, [Lit(stop)]), 0).Err? <==> piece != [] && forall j :: 0 <= j < |piece| ==> piece[j] == stop
  {
    var stopPattern := [Lit(stop)];
    SingleCharMatchesAt(piece, stop, 0);
    MatchesOnlyChar(piece, stop);
    if FirstMatch(piece, stopPattern, 0).Some? {
      var raw := RawSplit(piece, stopPattern);
      SplitLonger(piece, stopPattern, 0);
      RawSplitAllEmpty(piece, stopPattern);
      assert piece != [];
      if exists k :: 0 <= k < |raw| && raw[k] != [] {
        var k :| 0 <= k < |raw| && raw[k] != [];
        assert !AllEmpty(raw);
      }
    }
  }

  /** The cut fails exactly when `rest` is all further matches or its first piece is all `stop` characters. */
  lemma {:induction false} CutFails(url: string, delimiter: Pattern, stop: char, i: nat)
    requires |delimiter| > 0
    requires FirstMatch(url, delimiter, 0) == Some(i)
    ensures i + |delimiter| <= |url|
    ensures var rest := url[i + |delimiter|..];
            var piece := rest[..FirstPieceEnd(rest, delimiter)];
            SecondPieceUpTo(url, delimiter, stop).Err? <==>
              MatchesOnly(rest, delimiter) || (piece != [] && MatchesOnly(piece, [Lit(stop)]))
  {
    SecondPieceExists(url, delimiter, i);
    SecondPiece(url, delimiter, i);
    var rest := url[i + |delimiter|..];
    var piece := rest[..FirstPieceEnd(rest, delimiter)];
    var second := Element(Split(url, delimiter), 1);
    if second.Ok? {
      assert second.value == piece;
      assert SecondPieceUpTo(url, delimiter, stop) == Element(Split(piece, [Lit(stop)]), 0);
      FirstPieceByCharFails(piece, stop);
      MatchesOnlyChar(piece, stop);
    }
  }

  /** A successful cut is the text after the first match up to the next `stop` or match. */
  lemma {:induction false} CutIsIdPrefix(url: string, delimiter: Pattern, stop: char, i: nat)
    requires |delimiter| > 0
    requires FirstMatch(url, delimiter, 0) == Some(i)
    ensures i + |delimiter| <= |url|
    ensures var r := SecondPieceUpTo(url, delimiter, stop);
            r.Ok? ==> IsIdPrefix(url[i + |delimiter|..], delimiter, stop, r.value)
  {
    CutValue(url, delimiter, stop, i);
    var rest := url[i + |delimiter|..];
    var pieceEnd := FirstPieceEnd(rest, delimiter);
    var e := StopIndex(rest[..pieceEnd], stop);
    StopWithinPiece(rest, pieceEnd, stop, e);
    IdPrefixWithinPiece(rest, delimiter, stop, pieceEnd, e);
  }

  /** A successful cut is the text after the first match up to the first `stop` within its piece. */
  lemma {:induction false} CutValue(url: string, delimiter: Pattern, stop: char, i: nat)
    requires |delimiter| > 0
    requires FirstMatch(url, delimiter, 0) == Some(i)
    ensures i + |delimiter| <= |url|
    ensures var rest := url[i + |delimiter|..];
            var pieceEnd := FirstPieceEnd(rest, delimiter);
            var r := SecondPieceUpTo(url, delimiter, stop);
            r.Ok? ==> r.value == rest[..StopIndex(rest[..pieceEnd], stop)]
  {
    SecondPiece(url, delimiter, i);
    var rest := url[i + |delimiter|..];
    var piece := rest[..FirstPieceEnd(rest, delimiter)];
    var e := StopIndex(piece, stop);
    var second := Element(Split(url, delimiter), 1);
    if second.Ok? {
      CutOfSecond(url, delimiter, stop);
      FirstPieceByChar(piece, stop, e);
      PrefixOfPrefix(rest, FirstPieceEnd(rest, delimiter), e);
    }
  }

  /** Once `split(delimiter)[1]` exists, the cut is the first piece of splitting it on `stop`. */
  lemma {:induction false} CutOfSecond(url: string, delimiter: Pattern, stop: char)
    requires |delimiter| > 0 && Element(Split(url, delimiter), 1).Ok?
    ensures var second := Element(Split(url, delimiter), 1).value;
            SecondPieceUpTo(url, delimiter, stop) == Element(Split(second, [Lit(stop)]), 0)
  {
  }

  lemma PrefixOfPrefix<T>(s: seq<T>, n: nat, e: nat)
    requires e <= n <= |s|
    ensures s[..n][..e] == s[..e]
  {
  }

  /** The cut succeeds when the text after the first match starts with neither `stop` nor another match. */
  lemma {:induction false} CutSucceeds(url: string, delimiter: Pattern, stop: char, i: nat)
    requires |delimiter| > 0
    requires FirstMatch(url, delimiter, 0) == Some(i)
    requires i + |delimiter| <= |url|
    ensures var rest := url[i + |delimiter|..];
            rest != [] && rest[0] != stop && !MatchesAt(rest, delimiter, 0) ==> SecondPieceUpTo(url, delimiter, stop).Ok?
  {
    var rest := url[i + |delimiter|..];
    if rest != [] && rest[0] != stop && !MatchesAt(rest, delimiter, 0) {
      SecondPiece(url, delimiter, i);
      var pieceEnd := FirstPieceEnd(rest, delimiter);
      var piece := rest[..pieceEnd];
      assert pieceEnd > 0;
      assert piece[0] == rest[0];
      FirstPieceByChar(piece, stop, StopIndex(piece, stop));
    }
  }

  /** The three facts `CutsAfterFirstMatch` bundles, established separately. */
  lemma {:induction false} CutsFromFacts(url: string, delimiter: Pattern, stop: char, r: Result<string, IndexError>, i: nat)
    requires |delimiter| > 0
    requires FirstMatch(url, delimiter, 0) == Some(i) && i + |delimiter| <= |url|
    requires r.Ok? ==> IsIdPrefix(url[i + |delimiter|..], delimiter, stop, r.value)
    requires var rest := url[i + |delimiter|..];
             rest != [] && rest[0] != stop && !MatchesAt(rest, delimiter, 0) ==> r.Ok?
    requires url[i + |delimiter|..] == [] ==> r.Err?
    requires var rest := url[i + |delimiter|..];
             var piece := rest[..FirstPieceEnd(rest, delimiter)];
             r.Err? <==> MatchesOnly(rest, delimiter) || (piece != [] && MatchesOnly(piece, [Lit(stop)]))
    ensures CutsAfterFirstMatch(url, delimiter, stop, r)
  {
  }

  /** The first `stop` of a prefix of `rest`, read as a position in `rest`. */
  lemma {:induction false} StopWithinPiece(rest: string, pieceEnd: nat, stop: char, e: nat)
    requires pieceEnd <= |rest|
    requires e == StopIndex(rest[..pieceEnd], stop)
    ensures e <= pieceEnd
    ensures forall j :: 0 <= j < e ==> rest[j] != stop
    ensures e == pieceEnd || rest[e] == stop
  {
    var piece := rest[..pieceEnd];
    forall j | 0 <= j < e
      ensures rest[j] != stop
    {
      assert rest[j] == piece[j];
    }
    if e < pieceEnd {
      assert rest[e] == piece[e];
    }
  }

  lemma {:induction false} IdPrefixWithinPiece(rest: string, delimiter: Pattern, stop: char, pieceEnd: nat, e: nat)
    requires e <= pieceEnd <= |rest|
    requires forall j :: 0 <= j < pieceEnd ==> !MatchesAt(rest, delimiter, j)
    requires pieceEnd == |rest| || MatchesAt(rest, delimiter, pieceEnd)
    requires forall j :: 0 <= j < e ==> rest[j] != stop
    requires e == pieceEnd || rest[e] == stop
    ensures IsIdPrefix(rest, delimiter, stop, rest[..e])
  {
  }

  /** The index of the first `stop` in `s`, or its length when there is none. */
  function StopIndex(s: string, stop: char): (e: nat)
    ensures e <= |s|
    ensures forall j :: 0 <= j < e ==> s[j] != stop
    ensures e == |s| || s[e] == stop
  {
    if s == [] || s[0] == stop then 0 else 1 + StopIndex(s[1..], stop)
  }

  /**
   * The short-link regex matches wherever `youtu`, any character but a line
   * terminator, and `be/` follow each other; the literal marker is one such text.
   */
  lemma ShortLinkRegexMatches(url: string, i: nat, t: string)
    requires |t| == 9 && t[..5] == "youtu" && t[6..] == "be/" && !IsLineTerminator(t[5])
    requires OccursAt(url, t, i)
    ensures MatchesAt(url, ShortLinkDelimiter, i)
  {
    forall k | 0 <= k < 9
      ensures AtomMatches(ShortLinkDelimiter[k], url[i + k])
    {
      assert url[i + k] == url[i..i + 9][k] == t[k];
      if k < 5 {
        assert ShortLinkDelimiter[k] == Lit("youtu"[k]) && t[k] == t[..5][k];
      } else if k == 5 {
        assert ShortLinkDelimiter[k] == AnyChar;
      } else {
        assert ShortLinkDelimiter[k] == Lit("be/"[k - 6]) && t[k] == t[6..][k - 6];
      }
    }
  }

  /** Each marker guarantees that the delimiter its branch splits on occurs in the URL. */
  lemma MarkerImpliesDelimiter(url: string)
    ensures Contains(url, WatchMarker) ==> FirstMatch(url, WatchDelimiter, 0).Some?
    ensures Contains(url, ShortLinkMarker) ==> FirstMatch(url, ShortLinkDelimiter, 0).Some?
    ensures Contains(url, EmbedMarker) ==> FirstMatch(url, EmbedDelimiter, 0).Some?
  {
    WatchMarkerHoldsDelimiter(url);
    ShortLinkMarkerHoldsDelimiter(url);
    EmbedMarkerHoldsDelimiter(url);
  }

  lemma WatchMarkerHoldsDelimiter(url: string)
    ensures Contains(url, WatchMarker) ==> FirstMatch(url, WatchDelimiter, 0).Some?
  {
    if Contains(url, WatchMarker) {
      ContainsIff(url, WatchMarker);
      var i: nat :| OccursAt(url, WatchMarker, i);
      assert WatchMarker[18..20] == "v=";
      LiteralInsideMarker(url, WatchMarker, i, 18, "v=");
    }
  }

  lemma ShortLinkMarkerHoldsDelimiter(url: string)
    ensures Contains(url, ShortLinkMarker) ==> FirstMatch(url, ShortLinkDelimiter, 0).Some?
  {
    if Contains(url, ShortLinkMarker) {
      ContainsIff(url, ShortLinkMarker);
      var i: nat :| OccursAt(url, ShortLinkMarker, i);
      ShortLinkRegexMatches(url, i, ShortLinkMarker);
    }
  }

  lemma EmbedMarkerHoldsDelimiter(url: string)
    ensures Contains(url, EmbedMarker) ==> FirstMatch(url, EmbedDelimiter, 0).Some?
  {
    if Contains(url, EmbedMarker) {
      ContainsIff(url, EmbedMarker);
      var i: nat :| OccursAt(url, EmbedMarker, i);
      assert EmbedMarker[12..18] == "embed/";
      LiteralInsideMarker(url, EmbedMarker, i, 12, "embed/");
    }
  }

  /** A marker occurring in the URL carries every piece of itself along, as a match of that piece's literal pattern. */
  lemma LiteralInsideMarker(url: string, marker: string, i: nat, k: nat, piece: string)
    requires OccursAt(url, marker, i)
    requires k + |piece| <= |marker| && marker[k..k + |piece|] == piece
    ensures MatchesAt(url, Literal(piece), i + k)
  {
    var found := url[i + k..i + k + |piece|];
    forall j | 0 <= j < |piece|
      ensures found[j] == piece[j]
    {
      assert found[j] == url[i..i + |marker|][k + j];
      assert piece[j] == marker[k..k + |piece|][j];
    }
    assert found == piece;
    LiteralMatchesAt(url, piece, i + k);
  }

  /**
   * `extractVideoId`: "" for a null or empty URL; otherwise the first branch
   * whose marker the URL contains, in the order watch, short link, embed; and
   * the URL itself when it contains none of them.
   */
  function ExtractVideoId(videoUrl: Option<string>): (r: Result<string, IndexError>)
    ensures videoUrl.None? || videoUrl == Some([]) ==> r == Ok([])
    ensures videoUrl.Some? && videoUrl.value != [] && Contains(videoUrl.value, WatchMarker)
            ==> CutsAfterFirstMatch(videoUrl.value, WatchDelimiter, '&', r)
    ensures videoUrl.Some? && videoUrl.value != [] && !Contains(videoUrl.value, WatchMarker)
            && Contains(videoUrl.value, ShortLinkMarker)
            ==> CutsAfterFirstMatch(videoUrl.value, ShortLinkDelimiter, '?', r)
    ensures videoUrl.Some? && videoUrl.value != [] && !Contains(videoUrl.value, WatchMarker)
            && !Contains(videoUrl.value, ShortLinkMarker) && Contains(videoUrl.value, EmbedMarker)
            ==> CutsAfterFirstMatch(videoUrl.value, EmbedDelimiter, '?', r)
    ensures videoUrl.Some? && videoUrl.value != [] && !Contains(videoUrl.value, WatchMarker)
            && !Contains(videoUrl.value, ShortLinkMarker) && !Contains(videoUrl.value, EmbedMarker)
            ==> r == Ok(videoUrl.value)
  {
    if videoUrl.None? || videoUrl.value == [] then Ok([])
    else
      var url := videoUrl.value;
      MarkerImpliesDelimiter(url);
      if Contains(url, WatchMarker) then
        SecondPieceUpToSpec(url, WatchDelimiter, '&');
        SecondPieceUpTo(url, WatchDelimiter, '&')
      else if Contains(url, ShortLinkMarker) then
        SecondPieceUpToSpec(url, ShortLinkDelimiter, '?');
        SecondPieceUpTo(url, ShortLinkDelimiter, '?')
      else if Contains(url, EmbedMarker) then
        SecondPieceUpToSpec(url, EmbedDelimiter, '?');
        SecondPieceUpTo(url, EmbedDelimiter, '?')
      else
        Ok(url)
  }

  /**
   * An extracted id never holds the character its branch cuts at: `&` for a
   * watch URL, `?` for a short or embed link.
   */
  lemma IdHasNoStop(url: string)
    requires url != []
    requires ExtractVideoId(Some(url)).Ok?
    ensures var id := ExtractVideoId(Some(url)).value;
            && (Contains(url, WatchMarker) ==> '&' !in id)
            && (!Contains(url, WatchMarker) && (Contains(url, ShortLinkMarker) || Contains(url, EmbedMarker)) ==> '?' !in id)
  {
    var r := ExtractVideoId(Some(url));
    if Contains(url, WatchMarker) {
      CutExcludesStop(url, WatchDelimiter, '&', r);
    } else if Contains(url, ShortLinkMarker) {
      CutExcludesStop(url, ShortLinkDelimiter, '?', r);
    } else if Contains(url, EmbedMarker) {
      CutExcludesStop(url, EmbedDelimiter, '?', r);
    }
  }

  /** A successful cut stops before the first `stop`, so holds none. */
  lemma {:induction false} CutExcludesStop(url: string, delimiter: Pattern, stop: char, r: Result<string, IndexError>)
    requires |delimiter| > 0
    requires CutsAfterFirstMatch(url, delimiter, stop, r) && r.Ok?
    ensures stop !in r.value
  {
    var i := FirstMatch(url, delimiter, 0).value;
    CutIdIsPrefix(url, delimiter, stop, r, i);
    IdPrefixExcludesStop(url[i + |delimiter|..], delimiter, stop, r.value);
  }

  /** A successful cut is an id prefix of the text after the first match. */
  lemma {:induction false} CutIdIsPrefix(url: string, delimiter: Pattern, stop: char, r: Result<string, IndexError>, i: nat)
    requires |delimiter| > 0
    requires FirstMatch(url, delimiter, 0) == Some(i)
    requires CutsAfterFirstMatch(url, delimiter, stop, r) && r.Ok?
    ensures i + |delimiter| <= |url| && IsIdPrefix(url[i + |delimiter|..], delimiter, stop, r.value)
  {
  }

  /** An id prefix holds no `stop`. */
  lemma {:induction false} IdPrefixExcludesStop(rest: string, delimiter: Pattern, stop: char, id: string)
    requires IsIdPrefix(rest, delimiter, stop, id)
    ensures stop !in id
  {
    forall j | 0 <= j < |id|
      ensures id[j] != stop
    {
      assert id[j] == rest[j];
    }
  }

  /** A cut whose text after the match is one character and then `stop` yields that character. */
  lemma CutBeforeStop(url: string, delimiter: Pattern, stop: char, r: Result<string, IndexError>, i: nat)
    requires |delimiter| > 0
    requires CutsAfterFirstMatch(url, delimiter, stop, r)
    requires FirstMatch(url, delimiter, 0) == Some(i)
    requires var rest := url[i + |delimiter|..];
             |rest| >= 2 && rest[0] != stop && !MatchesAt(rest, delimiter, 0) && rest[1] == stop
    ensures r == Ok(url[i + |delimiter|..][..1])
  {
  }

  /**
   * A short link that ends right after `youtu.be/` makes `split` return a
   * single piece, so the index `[1]` is out of bounds.
   */
  lemma ShortLinkWithoutIdFails(url: string)
    requires url == "https://youtu.be/"
    ensures ExtractVideoId(Some(url)).Err?
  {
    BareShortLinkBranch(url);
    BareShortLinkFirstMatch(url);
    assert url[8 + |ShortLinkDelimiter|..] == [];
  }

  /** A URL that starts `https://youtu.be/` holds the short-link marker right after the scheme. */
  lemma ShortLinkAfterScheme(url: string)
    requires |url| >= 17 && url[..17] == "https://youtu.be/"
    ensures OccursAt(url, ShortLinkMarker, 8)
  {
    var head := url[..17];
    assert head == "https://" + ShortLinkMarker;
    assert head[8..17] == ShortLinkMarker;
    assert url[8..17] == head[8..17];
  }

  /** The URL of `ShortLinkWithoutIdFails` takes the short-link branch. */
  lemma BareShortLinkBranch(url: string)
    requires url == "https://youtu.be/"
    ensures url != [] && !Contains(url, WatchMarker) && Contains(url, ShortLinkMarker)
  {
    ContainsIff(url, WatchMarker);
    assert |url| < |WatchMarker|;
    ShortLinkAfterScheme(url);
    ContainsIff(url, ShortLinkMarker);
  }

  /** In a URL that starts `https://youtu.be/` the short-link regex first matches right after the scheme. */
  lemma BareShortLinkFirstMatch(url: string)
    requires |url| >= 17 && url[..17] == "https://youtu.be/"
    ensures FirstMatch(url, ShortLinkDelimiter, 0) == Some(8)
  {
    ShortLinkAfterScheme(url);
    ShortLinkRegexMatches(url, 8, ShortLinkMarker);
    var scheme := url[..8];
    assert scheme == url[..17][..8] == "https://";
    assert 'y' !in scheme;
    forall i | 0 <= i < 8
      ensures !MatchesAt(url, ShortLinkDelimiter, i)
    {
      assert url[i] == scheme[i];
      assert !AtomMatches(ShortLinkDelimiter[0], url[i + 0]);
    }
  }

  /**
   * A short link followed only by `?`: the first `split` yields `?` as the
   * second piece, and splitting that on `?` leaves nothing, so the index `[0]`
   * is out of bounds.
   */
  lemma ShortLinkOnlyQueryFails(url: string)
    requires url == "https://youtu.be/?"
    ensures ExtractVideoId(Some(url)).Err?
  {
    QueryShortLinkBranch(url);
    BareShortLinkFirstMatch(url);
    var rest := url[8 + |ShortLinkDelimiter|..];
    assert rest == "?";
    QueryPieceIsOnlyStop(rest);
  }

  /** After the short-link match, the text `?` is one piece made of nothing but the stop character. */
  lemma {:induction false} QueryPieceIsOnlyStop(rest: string)
    requires rest == "?"
    ensures var piece := rest[..FirstPieceEnd(rest, ShortLinkDelimiter)];
            piece != [] && MatchesOnly(piece, [Lit('?')])
  {
    assert !MatchesAt(rest, ShortLinkDelimiter, 0);
    assert FirstPieceEnd(rest, ShortLinkDelimiter) == 1;
    MatchesOnlyChar(rest[..1], '?');
  }

  /** The URL of `ShortLinkOnlyQueryFails` takes the short-link branch. */
  lemma QueryShortLinkBranch(url: string)
    requires url == "https://youtu.be/?"
    ensures url != [] && !Contains(url, WatchMarker) && Contains(url, ShortLinkMarker)
  {
    ContainsIff(url, WatchMarker);
    assert |url| < |WatchMarker|;
    ShortLinkAfterScheme(url);
    ContainsIff(url, ShortLinkMarker);
  }

  /**
   * The short-link branch is chosen by the literal `youtu.be/`, but the split
   * that follows treats its `.` as a wildcard, so an earlier `youtu-be/` is
   * where the id is taken from.
   */
  lemma ShortLinkDotIsWildcard(url: string)
    requires url == "youtu-be/a?youtu.be/b"
    ensures ExtractVideoId(Some(url)) == Ok("a")
  {
    WildcardUrlBranch(url);
    WildcardUrlFirstMatch(url);
    WildcardUrlRest(url);
    CutBeforeStop(url, ShortLinkDelimiter, '?', ExtractVideoId(Some(url)), 0);
  }

  /** The URL of `ShortLinkDotIsWildcard` takes the short-link branch. */
  lemma WildcardUrlBranch(url: string)
    requires url == "youtu-be/a?youtu.be/b"
    ensures url != [] && !Contains(url, WatchMarker) && Contains(url, ShortLinkMarker)
  {
    WildcardUrlHasNoWatchMarker(url);
    assert url[11..20] == ShortLinkMarker;
    assert OccursAt(url, ShortLinkMarker, 11);
    ContainsIff(url, ShortLinkMarker);
  }

  lemma WildcardUrlHasNoWatchMarker(url: string)
    requires url == "youtu-be/a?youtu.be/b"
    ensures !Contains(url, WatchMarker)
  {
    assert |url| == 21 && |WatchMarker| == 20;
    assert url[5] == '-' && WatchMarker[5] == 'b';
    assert url[1] == 'o' && WatchMarker[0] == 'y';
    ContainsIff(url, WatchMarker);
    forall i: nat | i + |WatchMarker| <= |url|
      ensures !OccursAt(url, WatchMarker, i)
    {
      if i == 0 {
        Mismatch(url, WatchMarker, i, 5);
      } else {
        Mismatch(url, WatchMarker, i, 0);
      }
    }
  }

  /** One differing character rules an occurrence out. */
  lemma Mismatch(s: string, t: string, i: nat, k: nat)
    requires k < |t| && i + k < |s| && s[i + k] != t[k]
    ensures !OccursAt(s, t, i)
  {
    if i + |t| <= |s| {
      assert s[i..i + |t|][k] == s[i + k];
    }
  }

  /** In the URL of `ShortLinkDotIsWildcard` the short-link regex first matches `youtu-be/`, at the very start. */
  lemma WildcardUrlFirstMatch(url: string)
    requires url == "youtu-be/a?youtu.be/b"
    ensures FirstMatch(url, ShortLinkDelimiter, 0) == Some(0)
  {
    var t := url[..9];
    assert t[..5] == "youtu" && t[6..] == "be/" && t[5] == '-';
    assert OccursAt(url, t, 0);
    ShortLinkRegexMatches(url, 0, t);
  }

  /** After that first match comes `a`, then `?`. */
  lemma WildcardUrlRest(url: string)
    requires url == "youtu-be/a?youtu.be/b"
    ensures var rest := url[0 + |ShortLinkDelimiter|..];
            && |rest| >= 2 && rest[0] != '?' && !MatchesAt(rest, ShortLinkDelimiter, 0) && rest[1] == '?'
            && rest[..1] == "a"
  {
    var rest := url[9..];
    assert rest[0] == 'a' && rest[1] == '?';
    assert !AtomMatches(ShortLinkDelimiter[0], rest[0]);
  }
}
