/** Turning the language model's response into tweet texts (index.js, `run`):
    trim the response; for a thread, split it on the literal `###`, trim each
    part and drop the empty ones; for a single tweet, keep the trimmed
    response whole; then cut every part to 280 characters. */
module Compose {
  import opened Seqs
  import opened Text

  /** The delimiter the prompt asks the model to put between thread parts. */
  const Delimiter: string := "###"

  /** The longest tweet text; longer parts are cut to this length. */
  const MaxTweetLength: nat := 280

  /** Whether `###` starts at position `i` of `s`. */
  predicate DelimiterAt(s: string, i: nat)
  {
    i + 3 <= |s| && s[i] == '#' && s[i + 1] == '#' && s[i + 2] == '#'
  }

  predicate ContainsDelimiter(s: string)
  {
    exists i: nat :: i < |s| && DelimiterAt(s, i)
  }

  /** Position of the leftmost `###` in `s`, or `|s|` when there is none. */
  function FindDelimiter(s: string): (i: nat)
    ensures i <= |s|
    ensures i < |s| ==> DelimiterAt(s, i)
    ensures forall j: nat :: j < i ==> !DelimiterAt(s, j)
    ensures i == |s| ==> !ContainsDelimiter(s)
  {
    if |s| < |Delimiter| then
      assert forall j: nat :: !DelimiterAt(s, j);
      |s|
    else if DelimiterAt(s, 0) then 0
    else
      var i := 1 + FindDelimiter(s[1..]);
      assert forall j: nat :: 1 <= j ==> (DelimiterAt(s, j) <==> DelimiterAt(s[1..], j - 1));
      i
  }

  /** `s.split("###")`: the pieces between leftmost, non-overlapping
      occurrences of the delimiter. */
  function Split(s: string): (pieces: seq<string>)
    ensures |pieces| >= 1
    ensures forall k :: 0 <= k < |pieces| ==> !ContainsDelimiter(pieces[k])
    decreases |s|
  {
    var i := FindDelimiter(s);
    if i == |s| then [s]
    else
      assert forall j: nat :: DelimiterAt(s[..i], j) ==> DelimiterAt(s, j) && j < i;
      [s[..i]] + Split(s[i + |Delimiter|..])
  }

  /** The cut is at the leftmost `###`: the first piece is the text before
      the first delimiter, no delimiter starts inside it, there is a single
      piece exactly when the text has no delimiter, and otherwise the other
      pieces are the split of what follows that delimiter. */
  lemma SplitLeftmost(s: string)
    ensures var pieces := Split(s);
            && |pieces[0]| <= |s| && pieces[0] == s[..|pieces[0]|]
            && (forall j: nat :: j < |pieces[0]| ==> !DelimiterAt(s, j))
            && (|pieces| == 1 <==> !ContainsDelimiter(s))
            && (|pieces| > 1 ==>
                  DelimiterAt(s, |pieces[0]|) && pieces[1..] == Split(s[|pieces[0]| + |Delimiter|..]))
  {
    var i := FindDelimiter(s);
    if i < |s| {
      assert Split(s) == [s[..i]] + Split(s[i + |Delimiter|..]);
      assert ContainsDelimiter(s);
    }
  }

  /** For `####` the cut is after the first three `#`, as in JavaScript. */
  lemma FourHashes()
    ensures Split("####") == ["", "#"]
  {
    var s := "####";
    assert DelimiterAt(s, 0);
    assert FindDelimiter(s) == 0;
    assert s[3..] == "#";
    assert FindDelimiter("#") == 1;
  }

  /** `pieces.join("###")`. */
  function Join(pieces: seq<string>): string
  {
    if |pieces| == 0 then []
    else if |pieces| == 1 then pieces[0]
    else pieces[0] + Delimiter + Join(pieces[1..])
  }

  /** A join starts with its first piece, followed by a delimiter when
      more pieces come after it. */
  lemma JoinStart(pieces: seq<string>)
    requires |pieces| > 0
    ensures pieces[0] <= Join(pieces)
    ensures |pieces| > 1 ==> DelimiterAt(Join(pieces), |pieces[0]|)
  {
    if |pieces| > 1 {
      var r := Join(pieces);
      assert r == pieces[0] + Delimiter + Join(pieces[1..]);
      assert r[|pieces[0]|..|pieces[0]| + 3] == Delimiter;
    }
  }

  /** Splitting loses nothing: joining the pieces back with `###` gives the
      original text. */
  lemma {:induction false} JoinSplit(s: string)
    ensures Join(Split(s)) == s
    decreases |s|
  {
    var i := FindDelimiter(s);
    if i < |s| {
      var rest := s[i + |Delimiter|..];
      JoinSplit(rest);
      assert Split(s) == [s[..i]] + Split(rest);
      JoinCons(s[..i], Split(rest));
      assert s[i..i + |Delimiter|] == Delimiter;
      assert s == s[..i] + Delimiter + rest;
    }
  }

  /** Joining a piece in front of a non-empty sequence of pieces puts a
      delimiter between it and their join. */
  lemma JoinCons(p: string, pieces: seq<string>)
    requires |pieces| > 0
    ensures Join([p] + pieces) == p + Delimiter + Join(pieces)
  {
    assert ([p] + pieces)[1..] == pieces;
  }

  /** The filter callback `t => t.length`: on a trimmed piece, it keeps
      exactly the pieces that are not all whitespace. */
  predicate NonEmpty(t: string)
    ensures IsTrimmed(t) ==> (NonEmpty(t) <==> !AllWhitespace(t))
  {
    |t| > 0
  }

  /** `.map(t => t.trim())`. */
  function TrimAll(pieces: seq<string>): (r: seq<string>)
    ensures |r| == |pieces|
    ensures forall k :: 0 <= k < |r| ==> IsTrimmed(r[k]) && r[k] == Trim(pieces[k])
  {
    seq(|pieces|, k requires 0 <= k < |pieces| => Trim(pieces[k]))
  }

  /** The parts before truncation: `[text]` for a single tweet; for a thread,
      the trimmed non-empty pieces between delimiters. */
  function ParseResponse(response: string, isThread: bool): (parts: seq<string>)
    ensures !isThread ==> parts == [Trim(response)]
    ensures isThread ==> forall k :: 0 <= k < |parts| ==> |parts[k]| > 0 && IsTrimmed(parts[k])
    ensures isThread ==> |parts| <= |Split(Trim(response))|
  {
    var text := Trim(response);
    if isThread then
      var pieces := TrimAll(Split(text));
      var parts := Filter(NonEmpty, pieces);
      assert forall k :: 0 <= k < |parts| ==> |parts[k]| > 0 && IsTrimmed(parts[k]) by {
        forall k | 0 <= k < |parts| ensures |parts[k]| > 0 && IsTrimmed(parts[k]) {
          assert NonEmpty(parts[k]);
          assert parts[k] in pieces;
        }
      }
      parts
    else [text]
  }

  /** In thread mode, a trimmed piece of the response is a part exactly
      when it is not empty. */
  lemma ThreadPartsExact(response: string, t: string)
    ensures t in ParseResponse(response, true) <==> t in TrimAll(Split(Trim(response))) && t != []
  {
    FilterMember(NonEmpty, TrimAll(Split(Trim(response))), t);
  }

  /** `t.length > 280 ? t.slice(0, 280) : t`: the longest prefix of `t` that
      fits in a tweet. */
  function TruncatePart(t: string): (r: string)
    ensures |r| <= MaxTweetLength
    ensures r <= t
    ensures |r| == if |t| <= MaxTweetLength then |t| else MaxTweetLength
  {
    if |t| > MaxTweetLength then t[..MaxTweetLength] else t
  }

  /** `tweets.map(...)`: every part cut to 280 characters, with the number
      and order of parts preserved. */
  function Truncate(parts: seq<string>): (r: seq<string>)
    ensures |r| == |parts|
    ensures forall k :: 0 <= k < |r| ==> |r[k]| <= MaxTweetLength && r[k] <= parts[k]
    ensures forall k :: 0 <= k < |r| ==> |parts[k]| <= MaxTweetLength ==> r[k] == parts[k]
    ensures forall k :: 0 <= k < |r| ==> |parts[k]| > MaxTweetLength ==> r[k] == parts[k][..MaxTweetLength]
  {
    seq(|parts|, k requires 0 <= k < |parts| => TruncatePart(parts[k]))
  }

  /** The tweet texts `run` hands to the posting loop. */
  function ComposeTweets(response: string, isThread: bool): (tweets: seq<string>)
    ensures forall k :: 0 <= k < |tweets| ==> |tweets[k]| <= MaxTweetLength
    ensures !isThread ==> |tweets| == 1
    ensures isThread ==> forall k :: 0 <= k < |tweets| ==> |tweets[k]| > 0
  {
    Truncate(ParseResponse(response, isThread))
  }

  /** A piece that `###` splitting hands back from a join: no `###` inside,
      and not ending in `#` (a trailing `#` would merge into the delimiter
      that follows). */
  predicate Separable(q: string)
  {
    !ContainsDelimiter(q) && (q == [] || q[|q| - 1] != '#')
  }

  /** A thread part that `###` splitting and trimming hand back unchanged:
      a separable piece that is not empty and has no whitespace at its ends. */
  predicate WellFormedPart(p: string)
  {
    |p| > 0 && IsTrimmed(p) && Separable(p)
  }

  /** Round trip: a thread written as well-formed parts joined with `###`
      parses back into exactly those parts, in order. */
  lemma ParseJoinedThread(parts: seq<string>)
    requires |parts| > 0
    requires forall k :: 0 <= k < |parts| ==> WellFormedPart(parts[k])
    ensures ParseResponse(Join(parts), true) == parts
  {
    var text := Join(parts);
    JoinIsTrimmed(parts);
    SplitJoin(parts);
    TrimAllTrimmed(parts);
    FilterAllKept(NonEmpty, parts);
  }

  lemma JoinIsTrimmed(parts: seq<string>)
    requires |parts| > 0
    requires forall k :: 0 <= k < |parts| ==> WellFormedPart(parts[k])
    ensures Trim(Join(parts)) == Join(parts)
  {
    JoinEnds(parts);
    TrimOfTrimmed(Join(parts));
  }

  lemma TrimAllTrimmed(parts: seq<string>)
    requires forall k :: 0 <= k < |parts| ==> IsTrimmed(parts[k])
    ensures TrimAll(parts) == parts
  {
    forall k | 0 <= k < |parts| ensures Trim(parts[k]) == parts[k] {
      TrimOfTrimmed(parts[k]);
    }
  }

  /** The first character of a join is that of its first piece and the last
      that of its last piece. */
  lemma {:induction false} JoinEnds(parts: seq<string>)
    requires |parts| > 0
    requires forall k :: 0 <= k < |parts| ==> |parts[k]| > 0
    ensures var j := Join(parts);
            |j| > 0 && j[0] == parts[0][0] && j[|j| - 1] == parts[|parts| - 1][|parts[|parts| - 1]| - 1]
  {
    if |parts| > 1 {
      var rest := Join(parts[1..]);
      JoinEnds(parts[1..]);
      assert Join(parts) == parts[0] + Delimiter + rest;
      assert parts[1..][|parts| - 2] == parts[|parts| - 1];
    }
  }

  /** Splitting undoes joining for separable pieces. */
  lemma {:induction false} SplitJoin(parts: seq<string>)
    requires |parts| > 0
    requires forall k :: 0 <= k < |parts| ==> Separable(parts[k])
    ensures Split(Join(parts)) == parts
  {
    var p := parts[0];
    if |parts| == 1 {
      assert FindDelimiter(p) == |p|;
    } else {
      var rest := Join(parts[1..]);
      SplitJoin(parts[1..]);
      SplitAfterPart(p, rest);
    }
  }

  /** The first delimiter after a separable piece is the one right after it. */
  lemma SplitAfterPart(p: string, rest: string)
    requires Separable(p)
    ensures Split(p + Delimiter + rest) == [p] + Split(rest)
  {
    var s := p + Delimiter + rest;
    assert DelimiterAt(s, |p|);
    forall j: nat | j < |p| ensures !DelimiterAt(s, j) {
      if j + 3 <= |p| {
        assert !DelimiterAt(p, j);
      }
    }
    assert FindDelimiter(s) == |p|;
    assert s[..|p|] == p;
    assert s[|p| + 3..] == rest;
  }

  /** `FindDelimiter` is the only position with its three properties. */
  lemma FindDelimiterUnique(s: string, k: nat)
    requires k <= |s|
    requires k < |s| ==> DelimiterAt(s, k)
    requires forall j: nat :: j < k ==> !DelimiterAt(s, j)
    requires k == |s| ==> !ContainsDelimiter(s)
    ensures FindDelimiter(s) == k
  {
  }

  /** Behind whitespace, the delimiters of a text are those of the text
      moved by the length of the whitespace. */
  lemma DelimitersAfterWhitespace(u: string, s: string)
    requires AllWhitespace(u)
    ensures forall j: nat :: j < |u| ==> !DelimiterAt(u + s, j)
    ensures forall j: nat :: |u| <= j ==> (DelimiterAt(u + s, j) <==> DelimiterAt(s, j - |u|))
  {
    var t := u + s;
    forall j: nat | j < |u| ensures !DelimiterAt(t, j) {
      assert t[j] == u[j];
    }
    forall j: nat | |u| <= j ensures DelimiterAt(t, j) <==> DelimiterAt(s, j - |u|) {
      if j + 3 <= |t| {
        assert t[j] == s[j - |u|] && t[j + 1] == s[j + 1 - |u|] && t[j + 2] == s[j + 2 - |u|];
      }
    }
  }

  /** Whitespace in front of a text joins its first piece and moves no cut. */
  lemma SplitPrepend(u: string, s: string)
    requires AllWhitespace(u)
    ensures var pieces := Split(s);
            Split(u + s) == [u + pieces[0]] + pieces[1..]
  {
    var t := u + s;
    DelimitersAfterWhitespace(u, s);
    var i := FindDelimiter(s);
    if i == |s| {
      FindDelimiterUnique(t, |t|);
      assert Split(s) == [s];
    } else {
      FindDelimiterUnique(t, |u| + i);
      assert t[..|u| + i] == u + s[..i];
      assert t[|u| + i + |Delimiter|..] == s[i + |Delimiter|..];
      assert Split(s) == [s[..i]] + Split(s[i + |Delimiter|..]);
    }
  }

  /** Whitespace after a text joins its last piece and adds no cut. */
  lemma {:induction false} SplitAppend(s: string, v: string)
    requires AllWhitespace(v)
    ensures var pieces := Split(s);
            Split(s + v) == pieces[..|pieces| - 1] + [pieces[|pieces| - 1] + v]
    decreases |s|
  {
    var t := s + v;
    assert forall j: nat :: DelimiterAt(t, j) <==> DelimiterAt(s, j) by {
      forall j: nat ensures DelimiterAt(t, j) <==> DelimiterAt(s, j) {
        if j + 3 <= |s| {
          assert t[j] == s[j] && t[j + 1] == s[j + 1] && t[j + 2] == s[j + 2];
        } else if j + 2 < |t| {
          assert t[j + 2] == v[j + 2 - |s|];
        }
      }
    }
    var i := FindDelimiter(s);
    if i == |s| {
      FindDelimiterUnique(t, |t|);
      assert Split(s) == [s];
      assert Split(t) == [t];
    } else {
      FindDelimiterUnique(t, i);
      var rest := s[i + |Delimiter|..];
      assert t[..i] == s[..i];
      assert t[i + |Delimiter|..] == rest + v;
      SplitAppend(rest, v);
      var pieces := Split(rest);
      assert Split(s) == [s[..i]] + pieces;
      assert Split(t) == [s[..i]] + (pieces[..|pieces| - 1] + [pieces[|pieces| - 1] + v]);
    }
  }

  /** Trimming each piece undoes whitespace added before the first piece
      and after the last one. */
  lemma TrimAllPaddedEnds(pieces: seq<string>, u: string, v: string)
    requires |pieces| > 0 && AllWhitespace(u) && AllWhitespace(v)
    ensures var q := pieces[..|pieces| - 1] + [pieces[|pieces| - 1] + v];
            TrimAll([u + q[0]] + q[1..]) == TrimAll(pieces)
  {
    var n := |pieces|;
    var q := pieces[..n - 1] + [pieces[n - 1] + v];
    var all := [u + q[0]] + q[1..];
    forall k | 0 <= k < n ensures Trim(all[k]) == Trim(pieces[k]) {
      if k == 0 && n == 1 {
        assert all[0] == u + pieces[0] + v;
        TrimPadded(u, pieces[0], v);
      } else if k == 0 {
        assert all[0] == u + pieces[0] + [];
        TrimPadded(u, pieces[0], []);
      } else if k == n - 1 {
        assert all[k] == [] + pieces[k] + v;
        TrimPadded([], pieces[k], v);
      } else {
        assert all[k] == pieces[k];
      }
    }
  }

  /** The pieces of a text and of its trim are the same once each is
      trimmed. */
  lemma TrimAllSplitTrim(response: string)
    ensures TrimAll(Split(Trim(response))) == TrimAll(Split(response))
  {
    var rest := TrimStart(response);
    TrimStartIsSuffix(response);
    var u := response[..|response| - |rest|];
    assert response == u + rest;
    TrimAllSplitAround(u, rest);
  }

  /** Whitespace in front of a text, and whitespace at its end, change no
      trimmed piece. */
  lemma TrimAllSplitAround(u: string, rest: string)
    requires AllWhitespace(u)
    ensures TrimAll(Split(TrimEnd(rest))) == TrimAll(Split(u + rest))
  {
    var t := TrimEnd(rest);
    TrimEndIsPrefix(rest);
    var v := rest[|t|..];
    assert rest == t + v;
    SplitPrepend(u, rest);
    SplitAppend(t, v);
    TrimAllPaddedEnds(Split(t), u, v);
  }

  /** In thread mode the outer `trim` changes no part: the parts are the
      non-empty trimmed pieces of the untrimmed response. */
  lemma ThreadIgnoresOuterTrim(response: string)
    ensures ParseResponse(response, true) == Filter(NonEmpty, TrimAll(Split(response)))
  {
    TrimAllSplitTrim(response);
  }

  /** Splitting a join of separable pieces and trimming each piece gives
      the pieces trimmed, and no piece at all for an empty join. */
  lemma TrimAllSplitJoin(pieces: seq<string>)
    requires forall k :: 0 <= k < |pieces| ==> Separable(pieces[k])
    ensures Filter(NonEmpty, TrimAll(Split(Join(pieces)))) == Filter(NonEmpty, TrimAll(pieces))
  {
    if |pieces| == 0 {
      EmptyThread();
    } else {
      SplitJoin(pieces);
    }
  }

  /** An empty text has a single, blank piece, which is dropped. */
  lemma EmptyThread()
    ensures Filter(NonEmpty, TrimAll(Split([]))) == []
  {
    assert Split([]) == [[]];
    assert TrimAll([[]]) == [[]];
  }

  /** Parsing a thread written as separable pieces joined with `###`: the
      parts are the trimmed pieces, in order, with the blank ones dropped. */
  lemma ParseJoined(pieces: seq<string>)
    requires forall k :: 0 <= k < |pieces| ==> Separable(pieces[k])
    ensures ParseResponse(Join(pieces), true) == Filter(NonEmpty, TrimAll(pieces))
  {
    ThreadIgnoresOuterTrim(Join(pieces));
    TrimAllSplitJoin(pieces);
  }

  /** A piece is blank, and dropped from a thread, exactly when it is all
      whitespace. */
  lemma BlankPieceDropped(t: string)
    ensures NonEmpty(Trim(t)) <==> !AllWhitespace(t)
  {
    TrimEmpty(t);
  }

  /** Whitespace on either side of a separable piece keeps it separable:
      whitespace is never `#`. */
  lemma PaddedSeparable(a: string, p: string, b: string)
    requires AllWhitespace(a) && AllWhitespace(b) && Separable(p)
    ensures Separable(a + p + b)
  {
    var q := a + p + b;
    forall j: nat | j < |q| ensures !DelimiterAt(q, j) {
      if |a| <= j && j + 3 <= |a| + |p| {
        assert q[j] == p[j - |a|] && q[j + 1] == p[j + 1 - |a|] && q[j + 2] == p[j + 2 - |a|];
        assert !DelimiterAt(p, j - |a|);
      } else if j < |a| {
        assert q[j] == a[j];
      } else if j + 2 < |q| {
        assert q[j + 2] == b[j + 2 - |a| - |p|];
      }
    }
    if b != [] {
      assert q[|q| - 1] == b[|b| - 1];
    } else if p != [] {
      assert q[|q| - 1] == p[|p| - 1];
    } else if a != [] {
      assert q[|q| - 1] == a[|a| - 1];
    }
  }

  /** Each part with its own whitespace before and after it. */
  function Padded(parts: seq<string>, before: seq<string>, after: seq<string>): seq<string>
    requires |before| == |parts| && |after| == |parts|
  {
    seq(|parts|, k requires 0 <= k < |parts| => before[k] + parts[k] + after[k])
  }

  /** Round trip with whitespace: well-formed parts, each with any whitespace
      around it, joined with `###`, parse back into exactly those parts, in
      order. */
  lemma ParsePaddedThread(parts: seq<string>, before: seq<string>, after: seq<string>)
    requires |before| == |parts| && |after| == |parts|
    requires forall k :: 0 <= k < |parts| ==> WellFormedPart(parts[k])
    requires forall k :: 0 <= k < |parts| ==> AllWhitespace(before[k]) && AllWhitespace(after[k])
    ensures ParseResponse(Join(Padded(parts, before, after)), true) == parts
  {
    var pieces := Padded(parts, before, after);
    forall k | 0 <= k < |parts| ensures Separable(pieces[k]) && Trim(pieces[k]) == parts[k] {
      PaddedSeparable(before[k], parts[k], after[k]);
      TrimPadded(before[k], parts[k], after[k]);
      TrimOfTrimmed(parts[k]);
    }
    ParseJoined(pieces);
    assert TrimAll(pieces) == parts;
    FilterAllKept(NonEmpty, parts);
  }

  /** The example thread as pieces joined with `###`. */
  lemma ExampleJoin()
    ensures Join([" A ", " B ", "  ", "C"]) == " A ### B ###  ###C"
  {
    var pieces := [" A ", " B ", "  ", "C"];
    assert Join(pieces[3..]) == "C";
    assert Join(pieces[2..]) == "  ###C";
    assert Join(pieces[1..]) == " B ###  ###C";
  }

  /** The example's pieces, trimmed. */
  lemma ExampleTrimAll()
    ensures TrimAll([" A ", " B ", "  ", "C"]) == ["A", "B", "", "C"]
  {
    assert " A " == " " + "A" + " " && " B " == " " + "B" + " ";
    TrimPadded(" ", "A", " ");
    TrimPadded(" ", "B", " ");
    TrimOfTrimmed("A");
    TrimOfTrimmed("B");
    TrimOfTrimmed("C");
    TrimAllWhitespace("  ");
  }

  /** The example's pieces hold no `###` and end in no `#`. */
  lemma ExampleSeparable()
    ensures forall k :: 0 <= k < 4 ==> Separable([" A ", " B ", "  ", "C"][k])
  {
    assert " A " == " " + "A" + " " && " B " == " " + "B" + " " && "  " == "  " + "" + "";
    PaddedSeparable(" ", "A", " ");
    PaddedSeparable(" ", "B", " ");
    PaddedSeparable("  ", "", "");
    assert !DelimiterAt("C", 0);
  }

  /** Whitespace around the delimiters and a blank piece between two of
      them leave exactly the written parts. */
  lemma PaddedThreadExample(response: string)
    requires response == " A ### B ###  ###C"
    ensures ParseResponse(response, true) == ["A", "B", "C"]
  {
    var pieces := [" A ", " B ", "  ", "C"];
    ExampleJoin();
    ExampleSeparable();
    ParseJoined(pieces);
    ExampleTrimAll();
    ExampleFilter(TrimAll(pieces));
  }

  /** The example's blank piece is dropped. */
  lemma ExampleFilter(trimmed: seq<string>)
    requires trimmed == ["A", "B", "", "C"]
    ensures Filter(NonEmpty, trimmed) == ["A", "B", "C"]
  {
    assert Filter(NonEmpty, trimmed[3..]) == ["C"];
    assert Filter(NonEmpty, trimmed[2..]) == ["C"];
    assert Filter(NonEmpty, trimmed[1..]) == ["B", "C"];
  }

  /** A single-tweet response that is at least 280 characters long after
      trimming becomes exactly one tweet of exactly 280 characters. */
  lemma LongSingleTweetIsCut(response: string)
    requires |Trim(response)| >= MaxTweetLength
    ensures ComposeTweets(response, false) == [Trim(response)[..MaxTweetLength]]
  {
    var parts := ParseResponse(response, false);
    assert parts == [Trim(response)];
    assert ComposeTweets(response, false) == Truncate(parts);
    assert Truncate(parts)[0] == TruncatePart(parts[0]) == Trim(response)[..MaxTweetLength];
  }
}
