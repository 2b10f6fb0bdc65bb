/** The fenced-JSON extractor: the classifier's reply is decoded from the first
    ```json fenced object or array when there is one, from the whole reply
    otherwise. The search is Python's `re.search` of the pattern
        ```json\s*(\{.*?\}|\[.*?\])\s*```
    with DOTALL, stated once as a relation (Matches, IsChosen) and once as the
    scan that computes it (SkipSpace, FindCloser, MatchAt, Search). The JSON
    decoder itself is a parameter. */
module Extractor {
  import opened Common
  import opened Json

  /** The opening marker of a fenced JSON block. */
  const JsonFence: string := "```json"

  /** The closing marker. */
  const Fence: string := "```"

  /** Python's `\s` on text: exactly the characters for which `str.isspace()` holds. */
  predicate IsSpace(c: char)
  {
    || c == ' '
    || '\t' <= c <= '\r'
    || '\U{1C}' <= c <= '\U{1F}'
    || c == '\U{85}'
    || c == '\U{A0}'
    || c == '\U{1680}'
    || '\U{2000}' <= c <= '\U{200A}'
    || c == '\U{2028}'
    || c == '\U{2029}'
    || c == '\U{202F}'
    || c == '\U{205F}'
    || c == '\U{3000}'
  }

  /** text[i..j] is a (possibly empty) run of whitespace. */
  predicate AllSpace(text: string, i: nat, j: nat)
    requires i <= j <= |text|
  {
    forall k :: i <= k < j ==> IsSpace(text[k])
  }

  /** The literal `lit` occurs in `text` at index i. */
  predicate HasAt(text: string, i: nat, lit: string)
  {
    i + |lit| <= |text| && text[i..i + |lit|] == lit
  }

  predicate IsOpenBracket(c: char)
  {
    c == '{' || c == '['
  }

  /** The closer the pattern pairs with an opener: `\{.*?\}` or `\[.*?\]`. */
  function CloserOf(c: char): char
  {
    if c == '{' then '}' else ']'
  }

  /** A match of the pattern: the fence starts at `fence`, group 1 is text[start..stop]. */
  datatype Span = Span(fence: nat, start: nat, stop: nat)

  // ---------------------------------------------------------------------------
  // The pattern as a relation

  /** A match of the pattern begins at p with group 1 equal to text[s..e]:
      "```json", whitespace, an opener at s, any characters, the matching
      closer at e - 1, whitespace, "```". */
  ghost predicate Matches(text: string, p: nat, s: nat, e: nat)
  {
    && HasAt(text, p, JsonFence)
    && p + |JsonFence| <= s < e <= |text|
    && AllSpace(text, p + |JsonFence|, s)
    && IsOpenBracket(text[s])
    && s + 2 <= e
    && text[e - 1] == CloserOf(text[s])
    && exists k: nat :: e <= k && HasAt(text, k, Fence) && AllSpace(text, e, k)
  }

  /** At its start, m is the match with the shortest group; its group start
      is forced, since the greedy `\s*` must stop at the opener. */
  ghost predicate Shortest(text: string, m: Span)
  {
    && Matches(text, m.fence, m.start, m.stop)
    && forall s: nat, e: nat :: Matches(text, m.fence, s, e) ==> s == m.start && m.stop <= e
  }

  /** No match of the pattern starts in [lo, hi). */
  ghost predicate NoMatchBetween(text: string, lo: nat, hi: nat)
  {
    forall p: nat, s: nat, e: nat :: lo <= p < hi ==> !Matches(text, p, s, e)
  }

  /** No match of the pattern starts at lo or later. */
  ghost predicate NoMatchFrom(text: string, lo: nat)
  {
    forall p: nat, s: nat, e: nat :: lo <= p ==> !Matches(text, p, s, e)
  }

  /** The match `re.search` reports: the leftmost start, and at that start the
      shortest group (the lazy `.*?`). */
  ghost predicate IsChosen(text: string, m: Span)
  {
    Shortest(text, m) && NoMatchBetween(text, 0, m.fence)
  }

  /** The pattern occurs nowhere in the text. */
  ghost predicate NoMatch(text: string)
  {
    NoMatchFrom(text, 0)
  }

  // ---------------------------------------------------------------------------
  // The scan

  /** The end of the whitespace run that starts at i (the greedy `\s*`). */
  function SkipSpace(text: string, i: nat): (k: nat)
    requires i <= |text|
    ensures i <= k <= |text|
    ensures AllSpace(text, i, k)
    ensures k == |text| || !IsSpace(text[k])
    decreases |text| - i
  {
    if i < |text| && IsSpace(text[i]) then SkipSpace(text, i + 1) else i
  }

  /** The closer at j ends the group: whitespace and the closing fence follow it. */
  predicate ClosesAt(text: string, j: nat, closer: char)
    requires j < |text|
  {
    text[j] == closer && HasAt(text, SkipSpace(text, j + 1), Fence)
  }

  /** The first index at or after i where the group can end (the lazy `.*?`). */
  function FindCloser(text: string, i: nat, closer: char): (r: Option<nat>)
    requires i <= |text|
    ensures r.Some? ==> i <= r.value < |text| && ClosesAt(text, r.value, closer)
    ensures r.Some? ==> forall j :: i <= j < r.value ==> !ClosesAt(text, j, closer)
    ensures r.None? ==> forall j :: i <= j < |text| ==> !ClosesAt(text, j, closer)
    decreases |text| - i
  {
    if i == |text| then None
    else if ClosesAt(text, i, closer) then Some(i)
    else FindCloser(text, i + 1, closer)
  }

  /** The match the regex engine finds when it starts at p, if any. */
  function MatchAt(text: string, p: nat): (r: Option<Span>)
    ensures r.Some? ==> r.value.fence == p && r.value.start < r.value.stop <= |text|
  {
    if !HasAt(text, p, JsonFence) then None
    else
      var s := SkipSpace(text, p + |JsonFence|);
      if s == |text| || !IsOpenBracket(text[s]) then None
      else
        match FindCloser(text, s + 1, CloserOf(text[s]))
        case None => None
        case Some(j) => Some(Span(p, s, j + 1))
  }

  /** The first match starting at p or later (`re.search` tries every start in turn). */
  function SearchFrom(text: string, p: nat): (r: Option<Span>)
    requires p <= |text|
    ensures r.Some? ==> p <= r.value.fence && r.value.start < r.value.stop <= |text|
    decreases |text| - p
  {
    match MatchAt(text, p)
    case Some(m) => Some(m)
    case None => if p == |text| then None else SearchFrom(text, p + 1)
  }

  /** `re.search(pattern, text, re.DOTALL)`. */
  function Search(text: string): (r: Option<Span>)
    ensures r.Some? ==> r.value.start < r.value.stop <= |text|
  {
    SearchFrom(text, 0)
  }

  // ---------------------------------------------------------------------------
  // The scan computes the relation

  /** A whitespace run ending at a non-space character (or the end) is the one SkipSpace finds. */
  lemma {:induction false} SkipSpaceUnique(text: string, i: nat, k: nat)
    requires i <= k <= |text|
    requires AllSpace(text, i, k)
    requires k == |text| || !IsSpace(text[k])
    ensures SkipSpace(text, i) == k
    decreases k - i
  {
    if i < k {
      SkipSpaceUnique(text, i + 1, k);
    }
  }

  /** Matches, restated in the terms the scan uses: the opener sits where the
      whitespace after the fence ends, and the group ends at a closer. */
  lemma MatchesByScan(text: string, p: nat, s: nat, e: nat)
    ensures Matches(text, p, s, e) <==>
              && HasAt(text, p, JsonFence)
              && s == SkipSpace(text, p + |JsonFence|)
              && s < |text| && IsOpenBracket(text[s])
              && s + 2 <= e <= |text|
              && ClosesAt(text, e - 1, CloserOf(text[s]))
  {
    if Matches(text, p, s, e) {
      SkipSpaceUnique(text, p + |JsonFence|, s);
      var k: nat :| e <= k && HasAt(text, k, Fence) && AllSpace(text, e, k);
      assert text[k] == Fence[0];
      SkipSpaceUnique(text, e, k);
    }
    if && HasAt(text, p, JsonFence)
       && s == SkipSpace(text, p + |JsonFence|)
       && s < |text| && IsOpenBracket(text[s])
       && s + 2 <= e <= |text|
       && ClosesAt(text, e - 1, CloserOf(text[s]))
    {
      var k := SkipSpace(text, e);
      assert e <= k && AllSpace(text, e, k) && HasAt(text, k, Fence);
    }
  }

  /** MatchAt reports the shortest match starting at p, or that there is none. */
  lemma MatchAtSpec(text: string, p: nat)
    ensures MatchAt(text, p).Some? ==> Shortest(text, MatchAt(text, p).value)
    ensures MatchAt(text, p).None? ==> forall s: nat, e: nat :: !Matches(text, p, s, e)
  {
    forall s: nat, e: nat | Matches(text, p, s, e)
      ensures MatchAt(text, p).Some? && MatchAt(text, p).value.start == s && MatchAt(text, p).value.stop <= e
    {
      MatchesByScan(text, p, s, e);
    }
    if MatchAt(text, p).Some? {
      var m := MatchAt(text, p).value;
      MatchesByScan(text, p, m.start, m.stop);
    }
  }

  /** SearchFrom finds the leftmost match at or after p, and at that start the shortest one. */
  lemma {:induction false} SearchFromSpec(text: string, p: nat)
    requires p <= |text|
    ensures SearchFrom(text, p).Some? ==>
              Shortest(text, SearchFrom(text, p).value) &&
              NoMatchBetween(text, p, SearchFrom(text, p).value.fence)
    ensures SearchFrom(text, p).None? ==> NoMatchFrom(text, p)
    decreases |text| - p
  {
    MatchAtSpec(text, p);
    if MatchAt(text, p).None? {
      if p < |text| {
        SearchFromSpec(text, p + 1);
        if SearchFrom(text, p + 1).Some? {
          var m := SearchFrom(text, p + 1).value;
          forall q: nat, s: nat, e: nat | p <= q < m.fence ensures !Matches(text, q, s, e) {
            if q == p {
              assert !Matches(text, p, s, e);
            } else {
              assert p + 1 <= q < m.fence;
            }
          }
        } else {
          forall q: nat, s: nat, e: nat | p <= q ensures !Matches(text, q, s, e) {
            if q == p {
              assert !Matches(text, p, s, e);
            } else {
              assert p + 1 <= q;
            }
          }
        }
      } else {
        forall q: nat, s: nat, e: nat | p <= q ensures !Matches(text, q, s, e) {
          assert !HasAt(text, q, JsonFence);
        }
      }
    }
  }

  /** Search reports exactly the match `re.search` chooses, and nothing when the pattern does not occur. */
  lemma SearchSpec(text: string)
    ensures Search(text).Some? ==> IsChosen(text, Search(text).value)
    ensures Search(text).None? ==> NoMatch(text)
  {
    SearchFromSpec(text, 0);
  }

  /** There is only one chosen match. */
  lemma ChosenUnique(text: string, m1: Span, m2: Span)
    requires IsChosen(text, m1) && IsChosen(text, m2)
    ensures m1 == m2
  {
    assert Matches(text, m1.fence, m1.start, m1.stop);
    assert Matches(text, m2.fence, m2.start, m2.stop);
    assert m1.fence == m2.fence;
  }

  // ---------------------------------------------------------------------------
  // extract_json_from_text

  /** How a decoder outcome becomes the extractor's outcome: the value, or a
      status-500 error whose detail names the failure and quotes the reply. */
  function Settle(d: DecodeResult, text: string): (r: Result<JValue, HttpException>)
    ensures r.Ok? <==> d.Decoded?
    ensures r.Ok? ==> r.value == d.value
    ensures r.Err? ==> r.error.status == 500 && EndsWith(r.error.detail, text)
  {
    match d
    case Decoded(v) => Ok(v)
    case DecodeError(msg) =>
      Err(HttpException(500, "JSON 디코딩 오류: " + msg + "\n응답 내용: " + text))
    case OtherError(msg) =>
      Err(HttpException(500, "JSON 데이터 처리 오류: " + msg + "\n응답 내용: " + text))
  }

  /** `extract_json_from_text(text)`, with `json.loads` as `decode`. */
  function ExtractJson(text: string, decode: string -> DecodeResult): (r: Result<JValue, HttpException>)
    ensures r.Err? ==> r.error.status == 500 && EndsWith(r.error.detail, text)
  {
    match Search(text)
    case Some(m) => Settle(decode(text[m.start..m.stop]), text)
    case None => Settle(decode(text), text)
  }

  /** When the pattern occurs, only the chosen block is decoded; if that fails
      the whole reply is not tried. */
  lemma ExtractUsesChosenBlock(text: string, decode: string -> DecodeResult, m: Span)
    requires IsChosen(text, m)
    ensures m.start <= m.stop <= |text|
    ensures ExtractJson(text, decode) == Settle(decode(text[m.start..m.stop]), text)
  {
    SearchSpec(text);
    assert Matches(text, m.fence, m.start, m.stop);
    if Search(text).Some? {
      ChosenUnique(text, m, Search(text).value);
    }
  }

  /** When the pattern does not occur, the whole reply is decoded. */
  lemma ExtractFallsBackToWholeText(text: string, decode: string -> DecodeResult)
    requires NoMatch(text)
    ensures ExtractJson(text, decode) == Settle(decode(text), text)
  {
    SearchSpec(text);
  }

  /** A reply that begins with a fenced object containing no '}' of its own
      yields that object, whatever follows the closing fence. */
  lemma FencedObjectIsExtracted(pad: string, body: string, trail: string, rest: string,
                                decode: string -> DecodeResult)
    requires AllSpace(pad, 0, |pad|) && AllSpace(trail, 0, |trail|)
    requires '}' !in body
    ensures var text := JsonFence + pad + "{" + body + "}" + trail + Fence + rest;
            ExtractJson(text, decode) == Settle(decode("{" + body + "}"), text)
  {
    var text := JsonFence + pad + "{" + body + "}" + trail + Fence + rest;
    var s := |JsonFence| + |pad|;
    var e := s + |body| + 2;
    var k := e + |trail|;
    assert text[..s] == JsonFence + pad;
    assert text[s..e] == "{" + body + "}";
    assert text[e..k] == trail;
    assert text[k..k + |Fence|] == Fence;
    assert HasAt(text, 0, JsonFence) by {
      assert text[..s][..|JsonFence|] == JsonFence;
    }
    assert AllSpace(text, |JsonFence|, s) by {
      forall i | |JsonFence| <= i < s ensures IsSpace(text[i]) {
        assert text[i] == text[..s][i] == pad[i - |JsonFence|];
      }
    }
    assert text[s] == text[s..e][0] == '{';
    assert text[e - 1] == text[s..e][e - 1 - s] == '}';
    assert AllSpace(text, e, k) by {
      forall i | e <= i < k ensures IsSpace(text[i]) {
        assert text[i] == text[e..k][i - e] == trail[i - e];
      }
    }
    assert Matches(text, 0, s, e);
    var m := Span(0, s, e);
    forall s': nat, e': nat | Matches(text, 0, s', e') ensures s' == s && e <= e' {
      MatchesByScan(text, 0, s', e');
      MatchesByScan(text, 0, s, e);
    }
    assert IsChosen(text, m);
    ExtractUsesChosenBlock(text, decode, m);
  }

  /** A reply with no "```json" marker anywhere is decoded whole. */
  lemma BareReplyIsDecodedWhole(text: string, decode: string -> DecodeResult)
    requires forall p: nat :: !HasAt(text, p, JsonFence)
    ensures ExtractJson(text, decode) == Settle(decode(text), text)
  {
    ExtractFallsBackToWholeText(text, decode);
  }
}
