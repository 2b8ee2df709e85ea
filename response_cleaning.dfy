/** `clean_json_response`: shapes the vision model's free-form reply into a
    brace-delimited candidate for the JSON parser, by three deleting regular
    expression substitutions applied in order. */
module ResponseCleaning {
  import opened Strings

  /** The first alternative of the fence pattern (followed there by `\s*`). */
  const TaggedFence: string := "```json"
  /** The second alternative (preceded there by `\s*`). */
  const Fence: string := "```"

  /** Length of the maximal run of `\s` characters at the front of `s`. */
  function LeadingSpaces(s: string): (n: nat)
    ensures n <= |s|
    ensures forall i :: 0 <= i < n ==> IsSpace(s[i])
    ensures n < |s| ==> !IsSpace(s[n])
  {
    if s != [] && IsSpace(s[0]) then 1 + LeadingSpaces(s[1..]) else 0
  }

  /** Length of the maximal run of `\s` characters at the end of `s`. */
  function TrailingSpaces(s: string): (n: nat)
    ensures n <= |s|
    ensures forall i :: |s| - n <= i < |s| ==> IsSpace(s[i])
    ensures n < |s| ==> !IsSpace(s[|s| - n - 1])
  {
    if s != [] && IsSpace(s[|s| - 1]) then 1 + TrailingSpaces(s[..|s| - 1]) else 0
  }

  /** Length of the match of `` ```json\s*|\s*``` `` at the front of `s`, or 0
      when there is none (neither alternative matches the empty string). The
      first alternative is tried first. In the second, the whitespace run can
      only end where the maximal run ends, because no whitespace character is
      a backtick, so backtracking into the run never helps. */
  function FenceMatch(s: string): (n: nat)
    ensures n <= |s|
    ensures n == 0 || n >= |Fence|
  {
    if StartsWith(s, TaggedFence) then
      |TaggedFence| + LeadingSpaces(s[|TaggedFence|..])
    else
      var k := LeadingSpaces(s);
      if StartsWith(s[k..], Fence) then k + |Fence| else 0
  }

  /** Deleting every match of the fence pattern, as the regular expression
      engine does it: a left-to-right scan where a match is deleted and the
      scan resumes after it, and where nothing matches one character is
      kept. */
  function StripCodeFences(s: string): (r: string)
    ensures |r| <= |s|
    decreases |s|
  {
    if s == [] then []
    else
      var n := FenceMatch(s);
      if n > 0 then StripCodeFences(s[n..]) else [s[0]] + StripCodeFences(s[1..])
  }

  /** Deleting the run of characters other than `{` anchored at the start:
      the match is the longest prefix free of `{`, so what remains is the suffix from the first `{`, or
      nothing when there is none. */
  function DropBeforeFirstOpen(t: string): (r: string)
    ensures |r| <= |t| && r == t[|t| - |r|..]
    ensures forall i :: 0 <= i < |t| - |r| ==> t[i] != '{'
    ensures r == [] || r[0] == '{'
  {
    if t == [] || t[0] == '{' then t else DropBeforeFirstOpen(t[1..])
  }

  /** Deleting the run of characters other than `}` anchored at the end:
      the leftmost match starts just after the
      last `}` (or at 0 when there is none) and runs greedily to the very
      end, so `$` matching before a final newline changes nothing; what
      remains is the prefix through the last `}`, or nothing. */
  function DropAfterLastClose(t: string): (r: string)
    ensures |r| <= |t| && r == t[..|r|]
    ensures forall i :: |r| <= i < |t| ==> t[i] != '}'
    ensures r == [] || r[|r| - 1] == '}'
  {
    if t == [] || t[|t| - 1] == '}' then t else DropAfterLastClose(t[..|t| - 1])
  }

  /** The two brace substitutions of `clean_json_response`, in order. */
  function BraceTrim(t: string): (r: string)
    ensures |r| <= |t|
    ensures r == [] || (r[0] == '{' && r[|r| - 1] == '}')
    ensures '{' !in t ==> r == []
    ensures '}' !in t ==> r == []
  {
    var u := DropBeforeFirstOpen(t);
    SuffixAvoids(t, u, '}');
    DropAfterLastClose(u)
  }

  /** A suffix holds no character its whole does not. */
  lemma SuffixAvoids(t: string, u: string, c: char)
    requires |u| <= |t| && u == t[|t| - |u|..]
    ensures c !in t ==> c !in u
  {
    if c !in t {
      forall i | 0 <= i < |u| ensures u[i] != c { assert u[i] == t[|t| - |u| + i]; }
    }
  }

  /** `clean_json_response(response_text)`. */
  function CleanJsonResponse(response: string): (r: string)
    ensures |r| <= |response|
    ensures r == [] || (r[0] == '{' && r[|r| - 1] == '}')
    ensures '{' !in StripCodeFences(response) ==> r == []
  {
    BraceTrim(StripCodeFences(response))
  }

  // ---------------------------------------------------------------------
  // Only deletions

  lemma {:induction false} StripCodeFencesDeletes(s: string)
    ensures IsSubsequence(StripCodeFences(s), s)
    decreases |s|
  {
    if s != [] {
      var n := FenceMatch(s);
      if n > 0 {
        StripCodeFencesDeletes(s[n..]);
        SubsequenceOfDrop(StripCodeFences(s[n..]), s, n);
      } else {
        StripCodeFencesDeletes(s[1..]);
        SubsequenceCons(s[0], StripCodeFences(s[1..]), s[1..]);
        assert [s[0]] + s[1..] == s;
      }
    }
  }

  /** Every substitution replaces with the empty string, so the cleaned text
      is the reply with some characters deleted. */
  lemma CleanJsonResponseDeletes(response: string)
    ensures IsSubsequence(CleanJsonResponse(response), response)
    ensures |CleanJsonResponse(response)| <= |response|
  {
    var t := StripCodeFences(response);
    var u := DropBeforeFirstOpen(t);
    var r := DropAfterLastClose(u);
    StripCodeFencesDeletes(response);
    SubsequenceSuffix(t, |t| - |u|);
    SubsequencePrefix(u, |r|);
    SubsequenceTransitive(r, u, t);
    SubsequenceTransitive(r, t, response);
    SubsequenceLength(r, response);
  }

  /** A reply without any `{` yields the empty candidate, as a refusal such
      as "I cannot process this image." does. */
  lemma NoOpenBraceYieldsEmpty(response: string)
    requires '{' !in response
    ensures CleanJsonResponse(response) == []
  {
    StripCodeFencesDeletes(response);
    SubsequenceAvoids(StripCodeFences(response), response, '{');
  }

  /** A refusal such as a vision model may give for an unreadable
      photograph. */
  lemma RefusalYieldsEmpty()
    ensures CleanJsonResponse("I cannot process this image.") == ""
  {
    NoOpenBraceYieldsEmpty("I cannot process this image.");
  }

  // ---------------------------------------------------------------------
  // The fence step

  /** Where the text does not start with a backtick and its leading
      whitespace run is not followed by one, nothing matches. */
  lemma NoFenceMatch(s: string)
    requires s != [] && s[0] != '`'
    requires LeadingSpaces(s) < |s| && s[LeadingSpaces(s)] != '`'
    ensures FenceMatch(s) == 0
  {
    assert !StartsWith(s, TaggedFence) by {
      if |s| >= |TaggedFence| { assert s[..|TaggedFence|][0] == s[0]; }
    }
    var k := LeadingSpaces(s);
    assert !StartsWith(s[k..], Fence) by {
      if |s[k..]| >= |Fence| { assert s[k..][..|Fence|][0] == s[k]; }
    }
  }

  /** A match of the first alternative, `json`-tagged fence then `\s*`, of
      length `n` at the front of `s`; the run is greedy and nothing after it
      is given back, since the pattern needs nothing more. */
  predicate TaggedMatch(s: string, n: nat) {
    && StartsWith(s, TaggedFence) && |TaggedFence| <= n <= |s|
    && (forall i :: |TaggedFence| <= i < n ==> IsSpace(s[i]))
    && (n < |s| ==> !IsSpace(s[n]))
  }

  /** The first `k` characters of `s` are whitespace. */
  predicate SpacesBefore(s: string, k: nat)
    requires k <= |s|
  {
    forall i :: 0 <= i < k ==> IsSpace(s[i])
  }

  /** A match of the second alternative, `\s*` then a bare fence, of length
      `n` at the front of `s`. */
  predicate BareMatch(s: string, n: nat) {
    |Fence| <= n <= |s| && SpacesBefore(s, n - |Fence|) && s[n - |Fence|..n] == Fence
  }

  /** The second alternative has no match at the front of `s`: wherever a
      whitespace prefix ends, no fence follows. */
  predicate NoBareMatch(s: string) {
    forall k :: 0 <= k <= |s| - |Fence| && SpacesBefore(s, k) ==> s[k..k + |Fence|] != Fence
  }

  /** `FenceMatch` is exactly the regular expression's match at the front:
      a positive length is a match of the first alternative, or, where that
      one does not apply, of the second; zero means neither alternative
      matches. */
  lemma FenceMatchIsMatch(s: string)
    ensures var n := FenceMatch(s);
      && (n > 0 ==> TaggedMatch(s, n) || (!StartsWith(s, TaggedFence) && BareMatch(s, n)))
      && (n == 0 ==> !StartsWith(s, TaggedFence) && NoBareMatch(s))
  {
    var n := FenceMatch(s);
    if !StartsWith(s, TaggedFence) {
      var r := LeadingSpaces(s);
      if StartsWith(s[r..], Fence) {
        assert s[r..][..|Fence|] == s[r..r + |Fence|];
        assert BareMatch(s, n);
      } else {
        forall k | 0 <= k <= |s| - |Fence| && SpacesBefore(s, k)
          ensures s[k..k + |Fence|] != Fence
        {
          if k < r {
            assert s[k..k + |Fence|][0] == s[k];
          } else if k == r {
            assert s[r..][..|Fence|] == s[k..k + |Fence|];
          } else {
            assert false;
          }
        }
      }
    }
  }

  /** Text without a backtick passes the fence step unchanged. */
  lemma {:induction false} NoBacktickUnfenced(s: string)
    requires '`' !in s
    ensures StripCodeFences(s) == s
    decreases |s|
  {
    if s != [] {
      var k := LeadingSpaces(s);
      if k < |s| {
        NoFenceMatch(s);
      } else {
        assert !StartsWith(s, TaggedFence) by {
          if |s| >= |TaggedFence| { assert s[..|TaggedFence|][0] == s[0]; }
        }
        assert FenceMatch(s) == 0;
      }
      NoBacktickUnfenced(s[1..]);
      assert [s[0]] + s[1..] == s;
    }
  }

  lemma NoBacktickCleansBraces(response: string)
    requires '`' !in response
    ensures CleanJsonResponse(response) == BraceTrim(response)
  {
    NoBacktickUnfenced(response);
  }

  lemma KeptFirst(p: string, rest: string)
    requires '`' !in p
    requires p != [] && !IsSpace(p[|p| - 1])
    ensures StripCodeFences(p + rest) == [p[0]] + StripCodeFences(p[1..] + rest)
  {
    var s := p + rest;
    var k := LeadingSpaces(s);
    assert k < |p| by { assert s[|p| - 1] == p[|p| - 1]; }
    NoFenceMatch(s);
    assert s[1..] == p[1..] + rest;
  }

  lemma ConsTail(p: string, x: string)
    requires p != []
    ensures [p[0]] + (p[1..] + x) == p + x
  {
    assert [p[0]] + p[1..] == p;
  }

  /** Dropping the first character of such a piece leaves such a piece. */
  lemma PieceTail(p: string)
    requires '`' !in p
    requires p != [] && !IsSpace(p[|p| - 1])
    ensures '`' !in p[1..]
    ensures p[1..] == [] || !IsSpace(p[1..][|p[1..]| - 1])
  {
    if p[1..] != [] { assert p[1..][|p[1..]| - 1] == p[|p| - 1]; }
  }

  /** A backtick-free piece not ending in whitespace is copied through, and
      the scan resumes right after it. */
  lemma {:induction false} PassThrough(p: string, rest: string)
    requires '`' !in p
    requires p == [] || !IsSpace(p[|p| - 1])
    ensures StripCodeFences(p + rest) == p + StripCodeFences(rest)
    decreases |p|
  {
    if p == [] {
      assert p + rest == rest;
    } else {
      KeptFirst(p, rest);
      PieceTail(p);
      PassThrough(p[1..], rest);
      ConsTail(p, StripCodeFences(rest));
    }
  }

  lemma {:induction false} LeadingSpacesOfRun(w: string, rest: string)
    requires forall i :: 0 <= i < |w| ==> IsSpace(w[i])
    requires rest == [] || !IsSpace(rest[0])
    ensures LeadingSpaces(w + rest) == |w|
    decreases |w|
  {
    if w == [] {
      assert w + rest == rest;
    } else {
      assert (w + rest)[0] == w[0];
      assert (w + rest)[1..] == w[1..] + rest;
      LeadingSpacesOfRun(w[1..], rest);
    }
  }

  /** The tagged fence and the whitespace after it form one match. */
  lemma TaggedFenceMatch(w: string, rest: string)
    requires forall i :: 0 <= i < |w| ==> IsSpace(w[i])
    requires rest == [] || !IsSpace(rest[0])
    ensures FenceMatch(TaggedFence + (w + rest)) == |TaggedFence| + |w|
  {
    var s := TaggedFence + (w + rest);
    assert s[..|TaggedFence|] == TaggedFence;
    assert s[|TaggedFence|..] == w + rest;
    LeadingSpacesOfRun(w, rest);
  }

  lemma TaggedFenceDropped(w: string, rest: string)
    requires forall i :: 0 <= i < |w| ==> IsSpace(w[i])
    requires rest == [] || !IsSpace(rest[0])
    ensures StripCodeFences(TaggedFence + (w + rest)) == StripCodeFences(rest)
  {
    var s := TaggedFence + (w + rest);
    TaggedFenceMatch(w, rest);
    Concat3(TaggedFence, w, rest);
    DropFront(TaggedFence + w, rest);
    MatchDeleted(s);
  }

  lemma DropFront(a: string, b: string)
    ensures (a + b)[|a|..] == b
  {
  }

  /** A match at the front is deleted and the scan goes on after it. */
  lemma MatchDeleted(s: string)
    requires FenceMatch(s) > 0
    ensures StripCodeFences(s) == StripCodeFences(s[FenceMatch(s)..])
  {
  }

  /** A whitespace run and the bare fence after it form one match, unless
      the tagged fence starts at the same place. */
  lemma BareFenceMatch(w: string, rest: string)
    requires forall i :: 0 <= i < |w| ==> IsSpace(w[i])
    requires !StartsWith(w + (Fence + rest), TaggedFence)
    ensures FenceMatch(w + (Fence + rest)) == |w| + |Fence|
  {
    var s := w + (Fence + rest);
    LeadingSpacesOfRun(w, Fence + rest);
    assert s[|w|..] == Fence + rest;
    assert s[|w|..][..|Fence|] == Fence;
  }

  lemma BareFenceDropped(w: string, rest: string)
    requires forall i :: 0 <= i < |w| ==> IsSpace(w[i])
    requires !StartsWith(w + (Fence + rest), TaggedFence)
    ensures StripCodeFences(w + (Fence + rest)) == StripCodeFences(rest)
  {
    var s := w + (Fence + rest);
    BareFenceMatch(w, rest);
    assert s[|w| + |Fence|..] == rest;
    MatchDeleted(s);
  }

  // ---------------------------------------------------------------------
  // The brace steps

  lemma {:induction false} DropBeforeFirstOpenSkips(x: string, t: string)
    requires '{' !in x
    ensures DropBeforeFirstOpen(x + t) == DropBeforeFirstOpen(t)
    decreases |x|
  {
    if x != [] {
      assert (x + t)[0] == x[0];
      assert (x + t)[1..] == x[1..] + t;
      DropBeforeFirstOpenSkips(x[1..], t);
    } else {
      assert x + t == t;
    }
  }

  lemma {:induction false} DropAfterLastCloseSkips(t: string, y: string)
    requires '}' !in y
    ensures DropAfterLastClose(t + y) == DropAfterLastClose(t)
    decreases |y|
  {
    if y != [] {
      var s := t + y;
      assert s[|s| - 1] == y[|y| - 1];
      assert s[..|s| - 1] == t + y[..|y| - 1];
      DropAfterLastCloseSkips(t, y[..|y| - 1]);
    } else {
      assert t + y == t;
    }
  }

  predicate IsBraced(b: string) {
    |b| > 0 && b[0] == '{' && b[|b| - 1] == '}'
  }

  /** Text before the first `{` and after the last `}` is discarded. */
  lemma BraceTrimFramed(x: string, body: string, y: string)
    requires '{' !in x && '}' !in y
    requires IsBraced(body)
    ensures BraceTrim(x + body + y) == body
  {
    Concat3(x, body, y);
    DropBeforeFirstOpenSkips(x, body + y);
    assert (body + y)[0] == '{';
    DropAfterLastCloseSkips(body, y);
  }

  lemma DropBeforeFirstOpenAt(t: string, f: nat)
    requires f < |t| && t[f] == '{' && '{' !in t[..f]
    ensures DropBeforeFirstOpen(t) == t[f..]
  {
    assert t == t[..f] + t[f..];
    DropBeforeFirstOpenSkips(t[..f], t[f..]);
  }

  lemma DropAfterLastCloseAt(t: string, l: nat)
    requires l < |t| && t[l] == '}' && '}' !in t[l + 1..]
    ensures DropAfterLastClose(t) == t[..l + 1]
  {
    assert t == t[..l + 1] + t[l + 1..];
    DropAfterLastCloseSkips(t[..l + 1], t[l + 1..]);
  }

  lemma SpanTail(t: string, f: nat, l: nat)
    requires f < l < |t| && t[l] == '}' && '}' !in t[l + 1..]
    ensures DropAfterLastClose(t[f..]) == t[f..l + 1]
  {
    var u := t[f..];
    assert u[l - f + 1..] == t[l + 1..];
    DropAfterLastCloseAt(u, l - f);
    assert u[..l - f + 1] == t[f..l + 1];
  }

  lemma EmptyTail(t: string, f: nat, l: nat)
    requires l < f < |t| && '}' !in t[l + 1..]
    ensures DropAfterLastClose(t[f..]) == []
  {
    var u := t[f..];
    forall i | 0 <= i < |u| ensures u[i] != '}' {
      assert u[i] == t[l + 1..][f - l - 1 + i];
    }
  }

  /** With `f` the first `{` and `l` the last `}`, the brace steps keep
      exactly `t[f..l+1]`, and nothing when the last `}` comes first. */
  lemma BraceTrimSpan(t: string, f: nat, l: nat)
    requires f < |t| && t[f] == '{' && '{' !in t[..f]
    requires l < |t| && t[l] == '}' && '}' !in t[l + 1..]
    ensures f < l ==> BraceTrim(t) == t[f..l + 1]
    ensures l < f ==> BraceTrim(t) == []
  {
    DropBeforeFirstOpenAt(t, f);
    if f < l {
      SpanTail(t, f, l);
    } else if l < f {
      EmptyTail(t, f, l);
    }
  }

  /** Brace trimming its own output changes nothing. */
  lemma BraceTrimIdempotent(t: string)
    ensures BraceTrim(BraceTrim(t)) == BraceTrim(t)
  {
    var r := BraceTrim(t);
    if r != [] {
      BraceTrimFramed([], r, []);
      assert [] + r + [] == r;
    }
  }

  // ---------------------------------------------------------------------
  // Reply shapes a vision model may produce

  /** Prose before and after the object, no fence. */
  lemma BodyInProse(before: string, body: string, after: string)
    requires '`' !in before && '{' !in before
    requires '`' !in after && '}' !in after
    requires '`' !in body && IsBraced(body)
    ensures CleanJsonResponse(before + body + after) == body
  {
    var s := before + body + after;
    assert '`' !in s by {
      forall i | 0 <= i < |s| ensures s[i] != '`' {
        if i < |before| { assert s[i] == before[i]; }
        else if i < |before| + |body| { assert s[i] == body[i - |before|]; }
        else { assert s[i] == after[i - |before| - |body|]; }
      }
    }
    NoBacktickUnfenced(s);
    BraceTrimFramed(before, body, after);
  }

  lemma PoliteOpening()
    ensures '`' !in "Sure! Here is the result: " && '{' !in "Sure! Here is the result: "
  {
  }

  lemma PoliteClosing()
    ensures '`' !in " Hope that helps!" && '}' !in " Hope that helps!"
  {
  }

  /** A reply wrapped in conversational prose. */
  lemma ChattyReply(body: string)
    requires '`' !in body && IsBraced(body)
    ensures CleanJsonResponse("Sure! Here is the result: " + body + " Hope that helps!") == body
  {
    PoliteOpening();
    PoliteClosing();
    BodyInProse("Sure! Here is the result: ", body, " Hope that helps!");
  }

  /** The closing fence with the newline before it goes; the prose after it
      stays. */
  lemma ClosingFenceDropped(after: string)
    requires '`' !in after
    ensures StripCodeFences("\n" + (Fence + after)) == after
  {
    assert ("\n" + (Fence + after))[0] == '\n';
    BareFenceDropped("\n", after);
    NoBacktickUnfenced(after);
  }

  /** A tagged opening fence directly followed by a newline and the object. */
  lemma TaggedOpening(body: string, closing: string)
    requires '`' !in body && IsBraced(body)
    ensures StripCodeFences(TaggedFence + ("\n" + (body + closing)))
         == body + StripCodeFences(closing)
  {
    TaggedFenceDropped("\n", body + closing);
    PassThrough(body, closing);
  }

  /** A whitespace run and an opening fence form one match; what follows up
      to the closing fence is kept. */
  lemma BareOpening(w: string, tail: string, closing: string)
    requires forall i :: 0 <= i < |w| ==> IsSpace(w[i])
    requires !StartsWith(w + (Fence + (tail + closing)), TaggedFence)
    requires '`' !in tail && tail != [] && !IsSpace(tail[|tail| - 1])
    ensures StripCodeFences(w + (Fence + (tail + closing))) == tail + StripCodeFences(closing)
  {
    BareFenceDropped(w, tail + closing);
    PassThrough(tail, closing);
  }

  /** The prose before a fence, up to its trailing whitespace, is copied. */
  lemma SplitBefore(before: string, rest: string) returns (p0: string, w: string)
    requires '`' !in before
    ensures before == p0 + w && '`' !in p0
    ensures forall i :: 0 <= i < |w| ==> IsSpace(w[i])
    ensures StripCodeFences(before + rest) == p0 + StripCodeFences(w + rest)
  {
    var n := TrailingSpaces(before);
    p0, w := before[..|before| - n], before[|before| - n..];
    SliceSplit(before, |before| - n);
    forall i | 0 <= i < |p0| ensures p0[i] != '`' { assert p0[i] == before[i]; }
    forall i | 0 <= i < |w| ensures IsSpace(w[i]) { assert w[i] == before[|before| - n + i]; }
    Concat3(p0, w, rest);
    PassThrough(p0, w + rest);
  }

  lemma SliceSplit(s: string, k: nat)
    requires k <= |s|
    ensures s == s[..k] + s[k..]
  {
  }

  lemma TaggedSplit(x: string)
    ensures Fence + ("json" + x) == TaggedFence + x
  {
  }

  lemma Concat3(a: string, b: string, c: string)
    ensures a + b + c == a + (b + c)
  {
  }

  /** The pieces of a fenced reply, written left to right and nested to the
      right. */
  lemma FencedReplyShape(before: string, tag: string, body: string, after: string)
    ensures before + Fence + tag + "\n" + body + "\n" + Fence + after
         == before + (Fence + (tag + ("\n" + (body + ("\n" + (Fence + after))))))
  {
  }

  /** The tagged opening fence, directly after a non-space character or at
      the start: the object and the prose after the closing fence remain. */
  lemma FencedTagged(body: string, after: string)
    requires '`' !in body && IsBraced(body)
    requires '`' !in after
    ensures StripCodeFences(Fence + ("json" + ("\n" + (body + ("\n" + (Fence + after))))))
         == body + after
  {
    var closing := "\n" + (Fence + after);
    TaggedSplit("\n" + (body + closing));
    TaggedOpening(body, closing);
    ClosingFenceDropped(after);
  }

  lemma BareTail(tag: string, body: string)
    requires tag == "json" || tag == ""
    requires '`' !in body && IsBraced(body)
    ensures var tail := tag + ("\n" + body);
      '`' !in tail && tail != [] && !IsSpace(tail[|tail| - 1])
  {
    var tail := tag + ("\n" + body);
    assert tail[|tail| - 1] == body[|body| - 1];
    forall i | 0 <= i < |tail| ensures tail[i] != '`' {
      if i > |tag| { assert tail[i] == body[i - |tag| - 1]; }
    }
  }

  lemma NotTaggedAtBareFence(w: string, tag: string, x: string)
    requires forall i :: 0 <= i < |w| ==> IsSpace(w[i])
    requires w != [] || tag == ""
    requires tag == "json" || tag == ""
    ensures !StartsWith(w + (Fence + (tag + ("\n" + x))), TaggedFence)
  {
    var s := w + (Fence + (tag + ("\n" + x)));
    if w != [] {
      assert s[0] == w[0];
    } else {
      assert s[3] == '\n';
    }
  }

  /** A bare opening fence, or any opening fence after whitespace: the
      second alternative takes the whitespace and the backticks, and the tag
      stays in the text. */
  lemma FencedBare(w: string, tag: string, body: string, after: string)
    requires forall i :: 0 <= i < |w| ==> IsSpace(w[i])
    requires w != [] || tag == ""
    requires tag == "json" || tag == ""
    requires '`' !in body && IsBraced(body)
    requires '`' !in after
    ensures StripCodeFences(w + (Fence + (tag + ("\n" + (body + ("\n" + (Fence + after)))))))
         == (tag + "\n") + (body + after)
  {
    var closing := "\n" + (Fence + after);
    var tail := tag + ("\n" + body);
    BareTail(tag, body);
    NotTaggedAtBareFence(w, tag, body + closing);
    TailShape(tag, body, closing);
    BareOpening(w, tail, closing);
    ClosingFenceDropped(after);
    TailShape(tag, body, after);
    Concat3(tag, "\n", body + after);
  }

  lemma TailShape(tag: string, body: string, x: string)
    ensures tag + ("\n" + (body + x)) == (tag + ("\n" + body)) + x
    ensures tag + ("\n" + (body + x)) == tag + "\n" + (body + x)
  {
  }

  lemma NoOpenBeforeBody(before: string, p0: string, w: string, kept: string, tag: string)
    requires '{' !in before && before == p0 + w
    requires kept == [] || kept == tag + "\n"
    requires tag == "json" || tag == ""
    ensures '{' !in p0 + kept
  {
    forall i | 0 <= i < |p0| ensures p0[i] != '{' { assert p0[i] == before[i]; }
  }

  /** Prose, an opening fence tagged `json` or untagged, a newline, the
      object, a newline, a closing fence, prose: the object comes out. When
      the prose before the fence ends in whitespace, the pattern's second
      alternative deletes that whitespace with the backticks and leaves the
      tag `json` behind; the brace steps discard it with the rest of the
      prose. */
  lemma FencedBodyInProse(before: string, tag: string, body: string, after: string)
    requires '`' !in before && '{' !in before
    requires '`' !in after && '}' !in after
    requires tag == "json" || tag == ""
    requires '`' !in body && IsBraced(body)
    ensures CleanJsonResponse(before + Fence + tag + "\n" + body + "\n" + Fence + after) == body
  {
    var rest := Fence + (tag + ("\n" + (body + ("\n" + (Fence + after)))));
    FencedReplyShape(before, tag, body, after);
    var p0, w := SplitBefore(before, rest);
    var kept: string;
    if w == [] && tag == "json" {
      FencedTagged(body, after);
      assert w + rest == rest;
      kept := [];
      assert kept + (body + after) == body + after;
    } else {
      FencedBare(w, tag, body, after);
      kept := tag + "\n";
    }
    NoOpenBeforeBody(before, p0, w, kept, tag);
    Concat3(p0, kept, body + after);
    Concat3(p0 + kept, body, after);
    BraceTrimFramed(p0 + kept, body, after);
  }

  /** A reply with the object inside a tagged fence. */
  lemma FencedBody(body: string)
    requires '`' !in body && IsBraced(body)
    ensures CleanJsonResponse(TaggedFence + "\n" + body + "\n" + Fence) == body
  {
    assert [] + Fence + "json" + "\n" + body + "\n" + Fence + []
        == TaggedFence + "\n" + body + "\n" + Fence;
    FencedBodyInProse([], "json", body, []);
  }
}
