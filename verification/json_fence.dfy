/**
 * `clean_json_string`: the backend cuts the JSON body out of the extraction
 * model's reply, which usually wraps it in a Markdown code fence, before the
 * reply is handed to the JSON parser.
 */
module JsonFence {
  import opened Wrappers
  import opened Text

  /** A Markdown code fence. */
  const Fence: string := "```"

  /** The opening fence of a code block tagged as JSON. */
  const JsonTag: string := "```json"

  /** Every tagged opening fence begins with a plain fence. */
  lemma TagStartsWithFence(s: string, m: nat)
    requires OccursAt(s, JsonTag, m)
    ensures OccursAt(s, Fence, m)
  {
    assert s[m..m + 3] == s[m..m + 7][..3];
  }

  lemma TagImpliesFence(s: string)
    requires Contains(s, JsonTag)
    ensures Contains(s, Fence)
  {
    assert JsonTag[..3] == Fence;
    ContainsPrefixOfPattern(s, JsonTag, 3);
  }

  /**
   * The text between the fences of `clean_json_string`: `s.split("```json")[1].split("```")[0]`
   * when the reply has a tagged fence, `s.split("```")[1].split("```")[0]`
   * when it has a plain one, and the reply itself otherwise.
   */
  function FencedText(s: string): (r: string)
    ensures Contains(s, Fence) ==> !Contains(r, Fence)
    ensures !Contains(s, Fence) ==> r == s
  {
    if Contains(s, JsonTag) then
      TagImpliesFence(s);
      SplitFirst(SplitSecond(s, JsonTag), Fence)
    else if Contains(s, Fence) then
      SplitFirst(SplitSecond(s, Fence), Fence)
    else
      s
  }

  /**
   * `clean_json_string`: the fenced body, or the whole reply, with the
   * surrounding whitespace stripped. Whenever the reply holds a fence the
   * result holds none, and the result never starts or ends with whitespace.
   */
  function CleanJsonString(s: string): (r: string)
    ensures Trimmed(r)
    ensures Contains(s, Fence) ==> !Contains(r, Fence)
    ensures !Contains(s, Fence) ==> r == Strip(s)
  {
    var body := FencedText(s);
    if Contains(s, Fence) then
      StripKeepsAbsent(body, Fence);
      Strip(body)
    else
      Strip(body)
  }

  /** Cleaning an already cleaned reply changes nothing. */
  lemma {:induction false} CleanIdempotent(s: string)
    ensures CleanJsonString(CleanJsonString(s)) == CleanJsonString(s)
  {
    var r := CleanJsonString(s);
    if !Contains(s, Fence) {
      StripKeepsAbsent(s, Fence);
      StripIdempotent(s);
    } else {
      StripTrimmed(r);
    }
  }

  /** `SplitFirst` stops at the given index when that is the first separator or the end. */
  lemma SplitFirstAt(t: string, sep: string, p: nat)
    requires p <= |t|
    requires forall q: nat :: q < p ==> !OccursAt(t, sep, q)
    requires OccursAt(t, sep, p) || p == |t|
    ensures SplitFirst(t, sep) == t[..p]
  {
  }

  /**
   * The segment `split("```json")[1]` of a reply whose first tag is at `i`
   * and whose first fence after it is at `k`: it reaches at least to `k`,
   * and past it by a whole fence unless it ends exactly there.
   */
  lemma {:induction false} TaggedSegment(s: string, i: nat, k: nat) returns (e: nat)
    requires OccursAt(s, JsonTag, i)
    requires forall j: nat :: j < i ==> !OccursAt(s, JsonTag, j)
    requires i + |JsonTag| <= k <= |s|
    requires k == |s| || OccursAt(s, Fence, k)
    requires forall j: nat :: i + |JsonTag| <= j < k ==> !OccursAt(s, Fence, j)
    requires forall m: nat :: k < m < k + 3 ==> !OccursAt(s, JsonTag, m)
    ensures Contains(s, JsonTag)
    ensures k <= e <= |s| && (e == k || k + 3 <= e)
    ensures SplitSecond(s, JsonTag) == s[i + |JsonTag|..e]
  {
    OccursAtContains(s, JsonTag, i);
    var j := i + |JsonTag|;
    assert Find(s, JsonTag, 0) == Some(i);
    match Find(s, JsonTag, j)
    case None =>
      e := |s|;
    case Some(m) =>
      e := m;
      TagStartsWithFence(s, m);
  }

  /**
   * A tagged block: when `i` is the first ```` ```json ```` and `k` the first
   * fence after it (or the end of the reply), and no further tag starts
   * inside that closing fence, the result is the text in between, stripped.
   */
  lemma {:induction false} CleanTaggedBlock(s: string, i: nat, k: nat)
    requires OccursAt(s, JsonTag, i)
    requires forall j: nat :: j < i ==> !OccursAt(s, JsonTag, j)
    requires i + |JsonTag| <= k <= |s|
    requires k == |s| || OccursAt(s, Fence, k)
    requires forall j: nat :: i + |JsonTag| <= j < k ==> !OccursAt(s, Fence, j)
    requires forall m: nat :: k < m < k + 3 ==> !OccursAt(s, JsonTag, m)
    ensures CleanJsonString(s) == Strip(s[i + |JsonTag|..k])
  {
    var j := i + |JsonTag|;
    var e := TaggedSegment(s, i, k);
    var t := s[j..e];
    assert SplitFirst(t, Fence) == s[j..k] by {
      forall q: nat | q < k - j
        ensures !OccursAt(t, Fence, q)
      {
        OccursInSlice(s, Fence, j, e, q);
      }
      if e != k {
        OccursInSlice(s, Fence, j, e, k - j);
      }
      SplitFirstAt(t, Fence, k - j);
      assert t[..k - j] == s[j..k];
    }
    assert FencedText(s) == s[j..k];
  }

  /**
   * An untagged block: with no ```` ```json ```` anywhere, `i` the first
   * fence and `k` the next one (or the end), the result is the text in
   * between, stripped.
   */
  lemma {:induction false} CleanPlainBlock(s: string, i: nat, k: nat)
    requires !Contains(s, JsonTag)
    requires OccursAt(s, Fence, i)
    requires forall j: nat :: j < i ==> !OccursAt(s, Fence, j)
    requires i + |Fence| <= k <= |s|
    requires k == |s| || OccursAt(s, Fence, k)
    requires forall j: nat :: i + |Fence| <= j < k ==> !OccursAt(s, Fence, j)
    ensures CleanJsonString(s) == Strip(s[i + |Fence|..k])
  {
    OccursAtContains(s, Fence, i);
    var j := i + |Fence|;
    var t := s[j..k];
    assert SplitSecond(s, Fence) == t by {
      assert Find(s, Fence, 0) == Some(i);
      if k < |s| {
        assert Find(s, Fence, j) == Some(k);
      } else {
        assert Find(s, Fence, j) == None;
      }
    }
    FenceFreeBetween(s, j, k);
    assert FencedText(s) == t;
  }

  // ---------------------------------------------------------------------
  // The block body as evidently intended, and where the code departs from it
  // ---------------------------------------------------------------------

  /** A stretch of `s` in which no fence starts and ends is fence-free as a string. */
  lemma FenceFreeBetween(s: string, j: nat, e: nat)
    requires j <= e <= |s|
    requires forall q: nat :: j <= q < e ==> !OccursAt(s, Fence, q)
    ensures !Contains(s[j..e], Fence)
  {
    forall q: nat | q <= e - j
      ensures !OccursAt(s[j..e], Fence, q)
    {
      OccursInSlice(s, Fence, j, e, q);
    }
  }

  /**
   * The body of the block opened by the first `open`: the text after it up to
   * the first fence that follows, or to the end of the reply.
   */
  function BlockBody(s: string, open: string): (r: string)
    requires Contains(s, open)
    ensures !Contains(r, Fence)
  {
    FindFromStart(s, open);
    var j := Find(s, open, 0).value + |open|;
    match Find(s, Fence, j)
    case None =>
      FenceFreeBetween(s, j, |s|);
      assert s[j..] == s[j..|s|];
      s[j..]
    case Some(k) =>
      FenceFreeBetween(s, j, k);
      s[j..k]
  }

  /**
   * The cleaning the code sets out to do: the body of the first tagged
   * block, else of the first plain block, else the whole reply, stripped.
   */
  function CleanJsonStringIntended(s: string): (r: string)
    ensures Trimmed(r)
    ensures Contains(s, Fence) ==> !Contains(r, Fence)
    ensures !Contains(s, Fence) ==> r == Strip(s)
  {
    if Contains(s, JsonTag) then
      TagImpliesFence(s);
      StripKeepsAbsent(BlockBody(s, JsonTag), Fence);
      Strip(BlockBody(s, JsonTag))
    else if Contains(s, Fence) then
      StripKeepsAbsent(BlockBody(s, Fence), Fence);
      Strip(BlockBody(s, Fence))
    else
      Strip(s)
  }

  /**
   * The intended cleaning returns the stripped text between the first
   * ```` ```json ```` and the next fence after it, however that fence is
   * followed.
   */
  lemma {:induction false} IntendedTaggedBlock(s: string, i: nat, k: nat)
    requires OccursAt(s, JsonTag, i)
    requires forall j: nat :: j < i ==> !OccursAt(s, JsonTag, j)
    requires i + |JsonTag| <= k <= |s|
    requires k == |s| || OccursAt(s, Fence, k)
    requires forall j: nat :: i + |JsonTag| <= j < k ==> !OccursAt(s, Fence, j)
    ensures CleanJsonStringIntended(s) == Strip(s[i + |JsonTag|..k])
  {
    OccursAtContains(s, JsonTag, i);
    assert Find(s, JsonTag, 0) == Some(i);
    if k < |s| {
      assert Find(s, Fence, i + |JsonTag|) == Some(k);
    } else {
      assert Find(s, Fence, i + |JsonTag|) == None;
      assert s[i + |JsonTag|..] == s[i + |JsonTag|..k];
    }
    assert BlockBody(s, JsonTag) == s[i + |JsonTag|..k];
  }

  lemma {:induction false} IntendedIdempotent(s: string)
    ensures CleanJsonStringIntended(CleanJsonStringIntended(s)) == CleanJsonStringIntended(s)
  {
    var r := CleanJsonStringIntended(s);
    if !Contains(s, Fence) {
      StripKeepsAbsent(s, Fence);
      StripIdempotent(s);
    } else {
      StripTrimmed(r);
    }
  }

  /** A single differing character rules out an occurrence. */
  lemma Mismatch(s: string, pat: string, i: nat, d: nat)
    requires d < |pat| && i + d < |s| && s[i + d] != pat[d]
    ensures !OccursAt(s, pat, i)
  {
  }

  /**
   * A reply whose tagged block holds `body` and is closed by a fence of four
   * backticks that runs straight into `json`, as in ```` ```json{a}````json ````.
   */
  function LongFenceReply(body: string): string {
    JsonTag + body + "````json"
  }

  /** Where the fences and tags of such a reply lie, for a body without backticks. */
  lemma LongFenceReplyLayout(body: string)
    requires forall k :: 0 <= k < |body| ==> body[k] != '`'
    ensures var s := LongFenceReply(body); var n := |body| + 7;
      && |s| == n + 8
      && OccursAt(s, JsonTag, 0)
      && (forall j: nat :: 7 <= j < n ==> !OccursAt(s, Fence, j))
      && OccursAt(s, Fence, n)
      && (forall j: nat :: 0 < j <= n ==> !OccursAt(s, JsonTag, j))
      && OccursAt(s, JsonTag, n + 1)
      && s[7..n] == body
      && s[7..n + 1] == body + "`"
  {
    var s := LongFenceReply(body);
    var n := |body| + 7;
    assert s[..7] == JsonTag;
    assert s[n..n + 3] == Fence;
    assert s[n + 1..n + 8] == JsonTag;
    assert s[7..n] == body;
    assert s[7..n + 1] == body + "`";
    forall j: nat | 7 <= j < n
      ensures !OccursAt(s, Fence, j)
    {
      Mismatch(s, Fence, j, 0);
    }
    forall j: nat | 0 < j <= n
      ensures !OccursAt(s, JsonTag, j)
    {
      if j < 3 {
        Mismatch(s, JsonTag, j, 3 - j);
      } else if j < n {
        Mismatch(s, JsonTag, j, 0);
      } else {
        Mismatch(s, JsonTag, j, 3);
      }
    }
  }

  /**
   * As written: for any non-empty trimmed body without backticks, the
   * four-backtick closing fence leaves a stray backtick in the text handed
   * to the JSON parser.
   */
  lemma LongClosingFenceAsWritten(body: string)
    requires body != [] && Trimmed(body)
    requires forall k :: 0 <= k < |body| ==> body[k] != '`'
    ensures CleanJsonString(LongFenceReply(body)) == body + "`"
  {
    var s := LongFenceReply(body);
    var n := |body| + 7;
    var t := body + "`";
    LongFenceReplyLayout(body);
    assert Trimmed(t);
    StripTrimmed(t);
    OccursAtContains(s, JsonTag, 0);
    assert SplitSecond(s, JsonTag) == t by {
      assert Find(s, JsonTag, 0) == Some(0);
      assert Find(s, JsonTag, 7) == Some(n + 1);
    }
    forall q: nat | q <= |t|
      ensures !OccursAt(t, Fence, q)
    {
      if q + 3 <= |t| {
        Mismatch(t, Fence, q, 0);
      }
    }
    SplitFirstAt(t, Fence, |t|);
  }

  /** The intended cleaning of the same reply yields the body alone. */
  lemma LongClosingFenceIntended(body: string)
    requires body != [] && Trimmed(body)
    requires forall k :: 0 <= k < |body| ==> body[k] != '`'
    ensures CleanJsonStringIntended(LongFenceReply(body)) == body
  {
    var s := LongFenceReply(body);
    LongFenceReplyLayout(body);
    StripTrimmed(body);
    IntendedTaggedBlock(s, 0, |body| + 7);
  }
}
