/**
 * `modify_host_in_productpage` in pc2_punto1.py: every
 * `app.run(host='<host>', port=p, debug=True, threaded=True)` call becomes the
 * same call bound to `0.0.0.0`.
 *
 * The pattern is `app.run\(host='[^']+', port=p, debug=True, threaded=True\)`.
 * Its `.` is unescaped, so it stands for any character but a newline, and the
 * replacement is the fixed text `app.run(host='0.0.0.0', ...)`: a call written
 * `appXrun(...)` is rewritten to `app.run(...)`.
 */
module BindAddress {
  import opened Strings
  import opened Substitution

  /** What follows the unescaped `.` of `app.run`: `run(host='`. */
  const HostOpen: string := "run(host='"
  /** The fixed text before the host in the replacement. */
  const HostHead: string := "app." + HostOpen
  // Long literals are written as concatenations of short pieces: the verifier unfolds
  // short literals character by character far more cheaply than one long literal.
  /** The rest of the call after the host's closing quote. */
  const HostTailRest: string := ", port=p, " + "debug=True, " + "threaded=True)"
  /** The rest of the call after the host: `', port=p, debug=True, threaded=True)`. */
  const HostTail: string := "'" + HostTailRest
  /** The wildcard bind address. */
  const Wildcard: string := "0.0.0.0"
  /** The replacement: the call bound to the wildcard address. */
  const HostFixed: string := HostHead + Wildcard + HostTail

  /** Length of the run of non-quote characters (`[^']+`) at index 14 of a candidate call. */
  function HostLen(s: string): nat
    requires |s| >= 14
  {
    SkipUntil(s, 14, '\'') - 14
  }

  /**
   * The length of the call at the start of `s`, 0 when there is none: `app`,
   * any character but a newline, `run(host='`, one or more non-quote
   * characters, then `', port=p, debug=True, threaded=True)`. The `[^']+` run
   * cannot give characters back to help the match, because the next pattern
   * character is the quote it stops at.
   */
  function HostMatch(s: string): (n: nat)
    ensures n <= |s|
  {
    if |s| >= 14 && s[..3] == "app" && s[3] != '\n' && HostOpen <= s[4..] then
      var h := HostLen(s);
      if h >= 1 && HostTail <= s[14 + h..] then 14 + h + |HostTail| else 0
    else 0
  }

  /** Every call is rewritten to the same fixed call. */
  function FixCall(call: string): string
  {
    HostFixed
  }

  /** The substitution rule of the pass. */
  const HostRule: Rule := Rule(HostMatch, FixCall)

  /** The pass on the file content. */
  function ModifyHost(content: string): string
  {
    Sub(HostRule, content)
  }

  // ---------------------------------------------------------------------------
  // What a match is

  /** `m` is one whole call that the pattern describes. */
  predicate IsHostCall(m: string)
  {
    && |m| >= 15 + |HostTail|
    && m[..3] == "app" && m[3] != '\n' && m[4..14] == HostOpen
    && '\'' !in m[14..|m| - |HostTail|]
    && m[|m| - |HostTail|..] == HostTail
  }

  /**
   * The matcher finds a call of length `n` exactly when the first `n`
   * characters form a call; so at any position at most one call starts.
   */
  lemma HostMatchIff(s: string, n: nat)
    requires 0 < n <= |s|
    ensures HostMatch(s) == n <==> IsHostCall(s[..n])
  {
    if HostMatch(s) == n {
      HostMatchSound(s);
    }
    if IsHostCall(s[..n]) {
      HostMatchComplete(s, n);
    }
  }

  lemma HostMatchSound(s: string)
    requires HostMatch(s) > 0
    ensures IsHostCall(s[..HostMatch(s)])
  {
    var n := HostMatch(s);
    var m := s[..n];
    var h := HostLen(s);
    assert s[14 + h..][..|HostTail|] == HostTail;
    assert m[|m| - |HostTail|..] == HostTail;
    assert m[14..|m| - |HostTail|] == s[14..14 + h];
    assert m[4..14] == s[4..][..10];
  }

  lemma HostMatchComplete(s: string, n: nat)
    requires 0 < n <= |s| && IsHostCall(s[..n])
    ensures HostMatch(s) == n
  {
    var m := s[..n];
    var h := n - 14 - |HostTail|;
    assert m[..3] == s[..3];
    assert m[4..14] == s[4..14];
    assert s[4..][..10] == s[4..14];
    assert m[14..|m| - |HostTail|] == s[14..14 + h];
    forall k | 14 <= k < 14 + h ensures s[k] != '\'' {
      assert s[k] == m[14..|m| - |HostTail|][k - 14];
    }
    assert s[14 + h] == m[|m| - |HostTail|..][0];
    SkipUntilAt(s, 14, '\'', 14 + h);
    assert s[14 + h..][..|HostTail|] == m[|m| - |HostTail|..];
  }

  /** A call depends only on the characters it covers. */
  lemma HostWindow(t: string, u: string)
    requires 0 < HostMatch(t) <= |u| && u[..HostMatch(t)] == t[..HostMatch(t)]
    ensures HostMatch(u) == HostMatch(t)
  {
    HostSamePrefix(t, u, HostMatch(t));
  }

  /** A match depends only on the characters it covers. */
  lemma HostLocal()
    ensures Local(HostRule)
  {
    forall t, u ensures SameWindow(HostRule, t, u) {
      if 0 < HostRule.len(t) <= |u| && u[..HostRule.len(t)] == t[..HostRule.len(t)] {
        HostWindow(t, u);
      }
    }
  }

  // ---------------------------------------------------------------------------
  // Idempotence

  /** A whole call ends with the fixed tail. */
  lemma CallTail(w: string)
    requires HostMatch(w) == |w| > 0
    ensures |w| == 14 + HostLen(w) + |HostTail|
    ensures w[|w| - |HostTail|..] == HostTail
  {
    var h := HostLen(w);
    assert w[14 + h..][..|HostTail|] == HostTail;
  }

  lemma FixedParen()
    ensures |HostFixed| > 7 && HostFixed[7] == '(' && '(' !in HostTail
  {
    assert HostFixed[7] == HostHead[7];
  }

  /** Where the quotes of a call are: after `app`, before the host, and after it. */
  lemma CallQuotes(w: string)
    requires HostMatch(w) == |w| > 0
    ensures |w| == 14 + HostLen(w) + |HostTail|
    ensures forall k | 0 <= k < |w| && w[k] == '\'' :: k == 3 || k == 13 || k == 14 + HostLen(w)
    ensures w[|w| - |HostTail|..] == HostTail
  {
    var h := HostLen(w);
    assert w[14 + h..][..|HostTail|] == HostTail;
    forall k | 0 <= k < |w| && w[k] == '\''
      ensures k == 3 || k == 13 || k == 14 + h
    {
      if 4 <= k < 14 {
        assert w[4..][..10][k - 4] == w[k];
        assert '\'' !in "run(host=";
        assert HostOpen == "run(host=" + "'";
      }
    }
  }

  /** The replacement is itself one whole call, and rewriting it gives it back. */
  lemma HostFixedStable()
    ensures StableChunk(HostRule, HostFixed)
  {
    assert HostFixed[..3] == "app";
    assert HostFixed[4..][..10] == HostOpen;
    assert HostFixed[14..21] == Wildcard;
    assert '\'' !in Wildcard;
    SkipUntilAt(HostFixed, 14, '\'', 21);
    assert HostFixed[21..] == HostTail;
  }

  /** From index `q` on, `v` agrees with the replacement as far as both go. */
  predicate FixedFrom(v: string, q: nat)
  {
    forall k | q <= k < |v| && k - q < |HostFixed| :: v[k] == HostFixed[k - q]
  }

  /**
   * A call cannot end after the start of a copy of the replacement that
   * begins inside it: the copy's quotes, its `(` and its `app` prefix have no
   * place in a call. The four steps below bound how far the call reaches past `q`.
   */
  lemma CallEndsBefore(v: string, q: nat)
    requires HostMatch(v) == |v| > 0 && 1 <= q && FixedFrom(v, q)
    ensures |v| <= q
  {
    CallQuotes(v);
    assert HostFixed == HostHead + Wildcard + HostTail;
    CallOverlapAtMost21(v, q);
    CallOverlapAtMost13(v, q);
    CallOverlapAtMost7(v, q);
    CallOverlapNone(v, q);
  }

  /** Both quotes of the replacement's host would be quotes of the call. */
  lemma CallOverlapAtMost21(v: string, q: nat)
    requires HostMatch(v) == |v| > 0 && 1 <= q && FixedFrom(v, q)
    ensures |v| - q <= 21
  {
    CallQuotes(v);
    assert HostFixed[13] == '\'' && HostFixed[21] == '\'';
    assert |v| - q > 21 ==> CharAt(v, q + 13, '\'') && CharAt(v, q + 21, '\'');
  }

  /** The replacement's first quote would lie in the call's tail, after its only quote. */
  lemma CallOverlapAtMost13(v: string, q: nat)
    requires HostMatch(v) == |v| > 0 && 1 <= q && FixedFrom(v, q) && |v| - q <= 21
    ensures |v| - q <= 13
  {
    CallQuotes(v);
    assert HostFixed[13] == '\'';
    assert |v| - q > 13 ==> CharAt(v, q + 13, '\'');
  }

  /** The replacement's `(` would lie in the call's tail, which has none. */
  lemma CallOverlapAtMost7(v: string, q: nat)
    requires HostMatch(v) == |v| > 0 && 1 <= q && FixedFrom(v, q) && |v| - q <= 13
    ensures |v| - q <= 7
  {
    CallTail(v);
    FixedParen();
    assert |v| - q >= 8 ==> CharAt(v, q + 7, '(') && CharAt(HostTail, q + 7 - (|v| - |HostTail|), '(');
  }

  /** The call's final `)` would be one of the replacement's first seven characters, `app.run`. */
  lemma CallOverlapNone(v: string, q: nat)
    requires HostMatch(v) == |v| > 0 && 1 <= q && FixedFrom(v, q) && |v| - q <= 7
    ensures |v| <= q
  {
    CallQuotes(v);
    assert ')' !in HostHead;
    assert q < |v| ==> CharAt(v, |v| - 1, ')') && CharAt(HostHead, |v| - 1 - q, ')');
  }

  /** A text that continues with the replacement from `q >= 1` on has no call starting before `q` that reaches past `q`. */
  lemma NoCallAcross(w: string, q: nat)
    requires 1 <= q <= |w| && FixedFrom(w, q)
    ensures HostMatch(w) <= q
  {
    var n := HostMatch(w);
    if n > q {
      var v := w[..n];
      CallAlone(w);
      FixedFromPrefix(w, q, n);
      CallEndsBefore(v, q);
    }
  }

  /** A call, cut out of the text it starts, is a call of its own length. */
  lemma CallAlone(w: string)
    requires HostMatch(w) > 0
    ensures HostMatch(w[..HostMatch(w)]) == HostMatch(w)
  {
    var n := HostMatch(w);
    assert w[..n][..n] == w[..n];
    HostWindow(w, w[..n]);
  }

  lemma FixedFromPrefix(w: string, q: nat, n: nat)
    requires FixedFrom(w, q) && n <= |w|
    ensures FixedFrom(w[..n], q)
  {
    forall k | q <= k < n && k - q < |HostFixed| ensures w[..n][k] == HostFixed[k - q] {
      assert w[..n][k] == w[k];
    }
  }

  /** Rewriting what follows a character where no call starts never makes a call start there. */
  lemma HostKept(s: string)
    requires |s| > 0 && HostMatch(s) == 0
    ensures HostMatch([s[0]] + Sub(HostRule, s[1..])) == 0
  {
    var j, y := HostFrontLayout(s);
    NoCallAfterKept(s, j, y);
  }

  /** `s` up to `j` followed by a copy of the replacement (or by nothing, at the end) has no call at the start. */
  lemma NoCallAfterKept(s: string, j: nat, y: string)
    requires HostMatch(s) == 0 && j < |s|
    requires j + 1 < |s| ==> HostFixed <= y
    requires j + 1 == |s| ==> y == []
    ensures HostMatch(s[..j + 1] + y) == 0
  {
    var a := s[..j + 1];
    CallWithinKept(s, j, y);
    var n := HostMatch(a + y);
    PrefixOfConcat(a, y, n);
    assert a[..n] == s[..n];
    HostSamePrefix(a + y, s, n);
  }

  /** A call at the start of `s` up to `j` followed by a copy of the replacement ends by `j + 1`. */
  lemma CallWithinKept(s: string, j: nat, y: string)
    requires j < |s|
    requires j + 1 < |s| ==> HostFixed <= y
    requires j + 1 == |s| ==> y == []
    ensures HostMatch(s[..j + 1] + y) <= j + 1
  {
    var a := s[..j + 1];
    if j + 1 < |s| {
      FixedAfterPrefix(a, y);
      NoCallAcross(a + y, j + 1);
    } else {
      assert a + y == a;
    }
  }

  /** After a kept first character, the output is `s` up to the next call, then the replacement; or `s` itself. */
  lemma HostFrontLayout(s: string) returns (j: nat, y: string)
    requires |s| > 0
    ensures j < |s|
    ensures [s[0]] + Sub(HostRule, s[1..]) == s[..j + 1] + y
    ensures j + 1 < |s| ==> HostFixed <= y
    ensures j + 1 == |s| ==> y == []
  {
    j, y := SubFrontLayout(HostRule, s);
  }

  /** A text that continues with the replacement after `a` agrees with it from `|a|` on. */
  lemma FixedAfterPrefix(a: string, y: string)
    requires HostFixed <= y
    ensures FixedFrom(a + y, |a|)
  {
    IndexConcat(a, y);
  }

  /** Two texts that agree on their first `n` characters have a call of length `n` at the start alike. */
  lemma HostSamePrefix(a: string, b: string, n: nat)
    requires n <= |a| && n <= |b| && a[..n] == b[..n]
    ensures n > 0 && HostMatch(a) == n <==> n > 0 && HostMatch(b) == n
  {
    if n > 0 {
      HostMatchIff(a, n);
      HostMatchIff(b, n);
    }
  }

  /** Running the pass a second time changes nothing. */
  lemma ModifyHostIdempotent(content: string)
    ensures ModifyHost(ModifyHost(content)) == ModifyHost(content)
  {
    HostLocal();
    HostChunksStable();
    HostKeptStable();
    SubIdempotent(HostRule, content);
  }

  lemma HostChunksStable()
    ensures ChunksStable(HostRule)
  {
    HostFixedStable();
  }

  lemma HostKeptStable()
    ensures KeptStable(HostRule)
  {
    forall s | |s| > 0 && HostRule.len(s) == 0
      ensures HostRule.len([s[0]] + Sub(HostRule, s[1..])) == 0
    {
      HostKept(s);
    }
  }

  /**
   * Every call is replaced by the fixed call and every other character is
   * copied: the result renders the content's leftmost pieces, whose matched
   * pieces are exactly the calls.
   */
  lemma ModifyHostPieces(ps: seq<Piece>)
    requires Leftmost(HostRule, ps)
    ensures forall k | 0 <= k < |ps| && ps[k].Matched? :: IsHostCall(ps[k].text)
    ensures ModifyHost(Source(ps)) == Target(HostRule, ps)
  {
    MatchedPiecesMatch(HostRule, ps);
    forall k | 0 <= k < |ps| && ps[k].Matched? ensures IsHostCall(ps[k].text) {
      var t := ps[k].text;
      var s := t + Source(ps[k + 1..]);
      assert s[..|t|] == t;
      HostMatchIff(s, |t|);
    }
    SubByPieces(HostRule, ps);
  }

  /** Content without a call comes back unchanged. */
  lemma ModifyHostNoCall(content: string)
    requires NoMatch(HostRule, content)
    ensures ModifyHost(content) == content
  {
    SubNoMatch(HostRule, content);
  }
}
