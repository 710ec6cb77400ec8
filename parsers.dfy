/** The post-processing that `generate_summary`, `extract_keywords` and
    `analyze_sentiment` apply to the provider's raw reply. The provider call
    itself is not modelled: each function takes the reply text as input. */
module Parsers {
  import opened Text

  // ---------------------------------------------------------------------------
  // generate_summary
  // ---------------------------------------------------------------------------

  /** The summary is the raw reply without its surrounding whitespace: a slice
      of the reply with only whitespace before and after it, and blank exactly
      when the reply is. */
  function Summarize(raw: string): (summary: string)
    ensures IsTrimmed(summary)
    ensures summary == [] <==> AllSpace(raw)
    ensures var i := LeadingSpaces(raw);
            && i + |summary| <= |raw|
            && summary == raw[i..i + |summary|]
            && AllSpace(raw[..i]) && AllSpace(raw[i + |summary|..])
  {
    StripEmptyIff(raw);
    Strip(raw)
  }

  /** A reply that has no surrounding whitespace is the summary as it is. */
  lemma SummarizeTrimmed(raw: string)
    requires IsTrimmed(raw)
    ensures Summarize(raw) == raw
  {
    StripTrimmed(raw);
  }

  // ---------------------------------------------------------------------------
  // extract_keywords
  // ---------------------------------------------------------------------------

  /** The comprehension `[kw.strip() for kw in segments if kw.strip()]`. */
  function KeepStripped(segments: seq<string>): (keywords: seq<string>)
    ensures |keywords| <= |segments|
    ensures forall k | k in keywords :: k != [] && IsTrimmed(k)
  {
    if segments == [] then []
    else
      var k := Strip(segments[0]);
      var rest := KeepStripped(segments[1..]);
      if k != [] then [k] + rest else rest
  }

  /** The comprehension distributes over concatenation: it keeps the segments'
      order and keeps duplicates. */
  lemma {:induction false} KeepStrippedAppend(a: seq<string>, b: seq<string>)
    ensures KeepStripped(a + b) == KeepStripped(a) + KeepStripped(b)
  {
    if a != [] {
      assert (a + b)[1..] == a[1..] + b;
      KeepStrippedAppend(a[1..], b);
    } else {
      assert a + b == b;
    }
  }

  /** Some segment strips to `k`. */
  predicate StripOfSome(segments: seq<string>, k: string) {
    exists i | 0 <= i < |segments| :: Strip(segments[i]) == k
  }

  lemma StripOfSomeCons(segments: seq<string>, k: string)
    requires segments != []
    ensures StripOfSome(segments, k) <==> Strip(segments[0]) == k || StripOfSome(segments[1..], k)
  {
    var tail := segments[1..];
    if StripOfSome(tail, k) {
      var i :| 0 <= i < |tail| && Strip(tail[i]) == k;
      assert segments[i + 1] == tail[i];
    }
    if StripOfSome(segments, k) && Strip(segments[0]) != k {
      var i :| 0 <= i < |segments| && Strip(segments[i]) == k;
      assert tail[i - 1] == segments[i];
    }
  }

  /** A string is kept exactly when it is non-empty and is the strip of one
      of the segments. */
  lemma {:induction false} KeepStrippedMembers(segments: seq<string>, k: string)
    ensures k in KeepStripped(segments) <==> k != [] && StripOfSome(segments, k)
  {
    if segments != [] {
      KeepStrippedMembers(segments[1..], k);
      StripOfSomeCons(segments, k);
    }
  }

  /** No kept string contains a character that no segment contains. */
  lemma {:induction false} KeepStrippedAvoids(segments: seq<string>, c: char)
    requires forall s | s in segments :: c !in s
    ensures forall k | k in KeepStripped(segments) :: c !in k
  {
    if segments != [] {
      var tail := segments[1..];
      assert forall s | s in tail :: s in segments;
      KeepStrippedAvoids(tail, c);
      if c in Strip(segments[0]) {
        StripSubset(segments[0], c);
      }
    }
  }

  /** Segments with equal strips give the same keywords. */
  lemma {:induction false} KeepStrippedPointwise(a: seq<string>, b: seq<string>)
    requires |a| == |b|
    requires forall i | 0 <= i < |a| :: Strip(a[i]) == Strip(b[i])
    ensures KeepStripped(a) == KeepStripped(b)
  {
    if a != [] {
      KeepStrippedPointwise(a[1..], b[1..]);
    }
  }

  /** Keywords that are already clean come through unchanged. */
  lemma {:induction false} KeepStrippedClean(keywords: seq<string>)
    requires forall k | k in keywords :: k != [] && IsTrimmed(k)
    ensures KeepStripped(keywords) == keywords
  {
    if keywords != [] {
      StripTrimmed(keywords[0]);
      assert forall k | k in keywords[1..] :: k in keywords;
      KeepStrippedClean(keywords[1..]);
    }
  }

  /** `extract_keywords`: strip the reply, split it on commas, strip every
      segment and drop the empty ones. Every keyword is non-empty, has no
      surrounding whitespace and contains no comma. */
  function ParseKeywords(raw: string): (keywords: seq<string>)
    ensures forall k | k in keywords :: k != [] && IsTrimmed(k) && ',' !in k
  {
    var segments := Split(Strip(raw), ',');
    KeepStrippedAvoids(segments, ',');
    KeepStripped(segments)
  }

  lemma NoCommaInSpace(w: string)
    requires AllSpace(w)
    ensures ',' !in w
  {
    assert forall i | 0 <= i < |w| :: w[i] != ',' by {
      forall i | 0 <= i < |w| ensures w[i] != ',' { assert IsSpace(w[i]); }
    }
  }

  /** Pieces that differ from `p` only by whitespace glued onto the first
      and the last piece have the same strips as `p`. */
  lemma StripsAgree(w: string, v: string, p: seq<string>, full: seq<string>)
    requires AllSpace(w) && AllSpace(v)
    requires |p| >= 1 && |full| == |p|
    requires |p| == 1 ==> full[0] == w + p[0] + v
    requires |p| > 1 ==> full[0] == w + p[0] && full[|p| - 1] == p[|p| - 1] + v
    requires forall i | 0 < i < |p| - 1 :: full[i] == p[i]
    ensures forall i | 0 <= i < |p| :: Strip(full[i]) == Strip(p[i])
  {
    var n := |p|;
    forall i | 0 <= i < n ensures Strip(full[i]) == Strip(p[i]) {
      if n == 1 {
        StripPadded(w, p[0], v);
      } else if i == 0 {
        StripSpacesBefore(w, p[0]);
      } else if i == n - 1 {
        StripSpacesAfter(p[i], v);
      } else {
        assert full[i] == p[i];
      }
    }
  }

  /** Whitespace around a string does not change the strips of its pieces. */
  lemma SplitPaddedStrips(w: string, m: string, v: string)
    requires AllSpace(w) && AllSpace(v)
    ensures var p, full := Split(m, ','), Split(w + m + v, ',');
            && |full| == |p|
            && forall i | 0 <= i < |p| :: Strip(full[i]) == Strip(p[i])
  {
    NoCommaInSpace(w);
    NoCommaInSpace(v);
    var p, full := Split(m, ','), Split(w + m + v, ',');
    SplitPadded(w, m, v, ',');
    assert |p| >= 1 && |full| == |p|;
    StripsAgree(w, v, p, full);
  }

  /** Stripping the whole reply before splitting it changes nothing: the
      keywords are the stripped, non-empty comma-separated segments of the
      raw reply itself. */
  lemma ParseKeywordsUnstripped(raw: string)
    ensures ParseKeywords(raw) == KeepStripped(Split(raw, ','))
  {
    var m := Strip(raw);
    var a := LeadingSpaces(raw);
    var w, v := raw[..a], raw[a + |m|..];
    assert raw == w + m + v;
    SplitPaddedStrips(w, m, v);
    KeepStrippedPointwise(Split(raw, ','), Split(m, ','));
  }

  /** Joining segments with commas and parsing gives back the stripped,
      non-empty segments, in order and with duplicates. */
  lemma ParseKeywordsJoin(segments: seq<string>)
    requires |segments| >= 1
    requires forall s | s in segments :: ',' !in s
    ensures ParseKeywords(Join(segments, ',')) == KeepStripped(segments)
  {
    ParseKeywordsUnstripped(Join(segments, ','));
    SplitJoin(segments, ',');
  }

  /** A list of clean keywords survives a round trip through the
      comma-separated form. */
  lemma ParseKeywordsRoundTrip(keywords: seq<string>)
    requires forall k | k in keywords :: k != [] && IsTrimmed(k) && ',' !in k
    ensures ParseKeywords(Join(keywords, ',')) == keywords
  {
    KeepStrippedClean(keywords);
    if keywords != [] {
      ParseKeywordsJoin(keywords);
    } else {
      assert Split(Strip([]), ',') == [[]];
    }
  }

  // ---------------------------------------------------------------------------
  // analyze_sentiment
  // ---------------------------------------------------------------------------

  /** `analyze_sentiment`: strip the reply, then `capitalize()` it. The label
      has the letters of the stripped reply up to case, its first character
      is not lower case and no later character is upper case; it has no
      surrounding whitespace and is empty exactly when the reply is blank.
      No check is made that it is one of Positive, Negative or Neutral. */
  function NormalizeSentiment(raw: string): (sentiment: string)
    ensures |sentiment| == |Strip(raw)|
    ensures LowerAll(sentiment) == LowerAll(Strip(raw))
    ensures sentiment == [] || !IsLower(sentiment[0])
    ensures forall i | 1 <= i < |sentiment| :: !IsUpper(sentiment[i])
    ensures IsTrimmed(sentiment)
    ensures sentiment == [] <==> AllSpace(raw)
  {
    StripEmptyIff(raw);
    CapitalizeTrimmed(Strip(raw));
    Capitalize(Strip(raw))
  }

  /** Normalising a label again does not change it. */
  lemma NormalizeSentimentIdempotent(raw: string)
    ensures NormalizeSentiment(NormalizeSentiment(raw)) == NormalizeSentiment(raw)
  {
    var sentiment := NormalizeSentiment(raw);
    StripTrimmed(sentiment);
    CapitalizeIdempotent(Strip(raw));
  }

  /** Two replies give the same label exactly when their stripped forms agree
      up to case. */
  lemma NormalizeSentimentSameIff(x: string, y: string)
    ensures NormalizeSentiment(x) == NormalizeSentiment(y) <==> LowerAll(Strip(x)) == LowerAll(Strip(y))
  {
    CapitalizeSameIff(Strip(x), Strip(y));
  }

  /** A reply in lower case gets its first letter raised. */
  lemma NormalizeSentimentLower()
    ensures NormalizeSentiment("positive") == "Positive"
  {
    var raw := "positive";
    StripTrimmed(raw);
    CapitalizeUnique(raw, "Positive");
  }

  /** A reply in upper case keeps only its first letter upper case. */
  lemma NormalizeSentimentUpper()
    ensures NormalizeSentiment("POSITIVE") == "Positive"
  {
    var raw := "POSITIVE";
    StripTrimmed(raw);
    CapitalizeUnique(raw, "Positive");
  }

  /** Every letter after the first is lowered, also beyond the first word. */
  lemma NormalizeSentimentPhrase()
    ensures NormalizeSentiment("NOT BAD") == "Not bad"
  {
    var raw := "NOT BAD";
    StripTrimmed(raw);
    CapitalizeUnique(raw, "Not bad");
  }

  /** A blank reply gives the empty label. */
  lemma NormalizeSentimentBlank(raw: string)
    requires AllSpace(raw)
    ensures NormalizeSentiment(raw) == ""
  {
    StripEmptyIff(raw);
  }
}
