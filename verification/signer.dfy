/** Extraction of the signer identity from the verifier's diagnostic output
    (Debomatic/gpg.py, lines 58-60): the first match of the bytes pattern
    `Good signature from "(.*) <(.*)>.*"`, whose two groups are the signer's
    name and e-mail address.

    The pattern is not interpreted by a regular-expression engine here.
    `MatchAt` lists every way it can match at a position; `Greediest` and
    `FirstMatch` say which of those Python's leftmost, backtracking matcher
    reports; `ExtractSigner` computes it by a direct search. */
module Signature {
  import opened Wrappers
  import opened Bytes
  import opened Search

  /** The `(name, email)` pair that `findall` yields for one match. */
  datatype Signer = Signer(name: seq<byte>, email: seq<byte>)

  const GoodPrefix: seq<byte> := Ascii("Good signature from \"")

  predicate PrefixAt(out: seq<byte>, i: nat) {
    i + |GoodPrefix| <= |out| && out[i..i + |GoodPrefix|] == GoodPrefix
  }

  /** One way the part of the pattern after the literal prefix can match,
      when that part starts at `s`: group 1 is `out[s..a]`, the literal ` <`
      sits at `a`, group 2 is `out[a+2..b]`, the literal `>` sits at `b`, and
      the closing `"` sits at `c`. Every `.` refuses a newline, so no newline
      lies between `s` and `c`. */
  ghost predicate LineMatch(out: seq<byte>, s: nat, a: nat, b: nat, c: nat) {
    && s <= a && a + 2 <= b && b < c < |out|
    && out[a] == SP && out[a + 1] == LT && out[b] == GT && out[c] == QUOTE
    && forall k :: s <= k < c ==> out[k] != NL
  }

  /** One way the whole pattern can match at `i`. */
  ghost predicate MatchAt(out: seq<byte>, i: nat, a: nat, b: nat, c: nat) {
    PrefixAt(out, i) && LineMatch(out, i + |GoodPrefix|, a, b, c)
  }

  /** The split a backtracking matcher settles on: both groups are greedy and
      group 1 is tried before group 2, so among all splits it takes the one
      with the longest group 1, and among those the longest group 2. */
  ghost predicate Greediest(out: seq<byte>, s: nat, a: nat, b: nat) {
    && s <= a && a + 2 <= b < |out|
    && (exists c: nat :: LineMatch(out, s, a, b, c))
    && forall a': nat, b': nat, c': nat :: LineMatch(out, s, a', b', c') ==> a' < a || (a' == a && b' <= b)
  }

  /** The match `findall(...)[0]` reports: the leftmost position at which the
      pattern matches at all, with the greedy split there. */
  ghost predicate FirstMatchFrom(out: seq<byte>, lo: nat, i: nat, a: nat, b: nat) {
    && lo <= i
    && PrefixAt(out, i)
    && Greediest(out, i + |GoodPrefix|, a, b)
    && forall i': nat, a': nat, b': nat, c': nat :: lo <= i' < i ==> !MatchAt(out, i', a', b', c')
  }

  ghost predicate FirstMatch(out: seq<byte>, i: nat, a: nat, b: nat) {
    FirstMatchFrom(out, 0, i, a, b)
  }

  /** Any match of the pattern ends before the first newline after `s`. */
  lemma MatchWithinLine(out: seq<byte>, s: nat, a: nat, b: nat, c: nat, e: nat)
    requires s <= e <= |out|
    requires forall k :: s <= k < e ==> out[k] != NL
    requires e < |out| ==> out[e] == NL
    requires LineMatch(out, s, a, b, c)
    ensures c < e
  {
  }

  /** The greedy split of the pattern's tail on the line starting at `s`, or
      None when the tail does not match there. The closing `"` can be any
      quote on the line, so the last `>` before the last quote ends group 2,
      and the last ` <` before that `>` ends group 1. */
  function LineCaptures(out: seq<byte>, s: nat): (r: Option<(nat, nat)>)
    requires s <= |out|
    ensures r.None? ==> forall a: nat, b: nat, c: nat :: !LineMatch(out, s, a, b, c)
    ensures r.Some? ==> Greediest(out, s, r.value.0, r.value.1)
  {
    var e := FirstIndex(out, NL, s, |out|).GetOr(|out|);
    match LastIndex(out, QUOTE, s, e)
    case None =>
      assert forall a: nat, b: nat, c: nat :: !LineMatch(out, s, a, b, c) by {
        forall a: nat, b: nat, c: nat | LineMatch(out, s, a, b, c) ensures false {
          MatchWithinLine(out, s, a, b, c, e);
        }
      }
      None
    case Some(q) =>
      match LastIndex(out, GT, s, q)
      case None =>
        assert forall a: nat, b: nat, c: nat :: !LineMatch(out, s, a, b, c) by {
          forall a: nat, b: nat, c: nat | LineMatch(out, s, a, b, c) ensures false {
            MatchWithinLine(out, s, a, b, c, e);
          }
        }
        None
      case Some(b) =>
        match LastPair(out, SP, LT, s, b)
        case None =>
          assert forall a': nat, b': nat, c': nat :: !LineMatch(out, s, a', b', c') by {
            forall a': nat, b': nat, c': nat | LineMatch(out, s, a', b', c') ensures false {
              MatchWithinLine(out, s, a', b', c', e);
              assert PairAt(out, a', SP, LT);
            }
          }
          None
        case Some(a) =>
          assert LineMatch(out, s, a, b, q);
          assert forall a': nat, b': nat, c': nat :: LineMatch(out, s, a', b', c') ==> a' < a || (a' == a && b' <= b) by {
            forall a': nat, b': nat, c': nat | LineMatch(out, s, a', b', c')
              ensures a' < a || (a' == a && b' <= b)
            {
              MatchWithinLine(out, s, a', b', c', e);
              assert PairAt(out, a', SP, LT);
            }
          }
          Some((a, b))
  }

  /** Whether the pattern matches at position `i`. */
  predicate MatchesAt(out: seq<byte>, i: nat) {
    PrefixAt(out, i) && LineCaptures(out, i + |GoodPrefix|).Some?
  }

  lemma MatchesAtIff(out: seq<byte>, i: nat)
    ensures MatchesAt(out, i) <==> exists a: nat, b: nat, c: nat :: MatchAt(out, i, a, b, c)
  {
    if MatchesAt(out, i) {
      var (a, b) := LineCaptures(out, i + |GoodPrefix|).value;
      var c: nat :| LineMatch(out, i + |GoodPrefix|, a, b, c);
      assert MatchAt(out, i, a, b, c);
    }
  }

  /** The leftmost position at or after `lo` where the pattern matches. */
  function FindFrom(out: seq<byte>, lo: nat): (r: Option<nat>)
    ensures r.Some? ==> lo <= r.value && MatchesAt(out, r.value)
    ensures r.Some? ==> forall j :: lo <= j < r.value ==> !MatchesAt(out, j)
    ensures r.None? ==> forall j :: lo <= j ==> !MatchesAt(out, j)
    decreases |out| - lo
  {
    if lo + |GoodPrefix| > |out| then
      None
    else if MatchesAt(out, lo) then
      Some(lo)
    else
      FindFrom(out, lo + 1)
  }

  /** When the search finds nothing, the pattern matches nowhere. */
  lemma NotFoundMeansNoMatch(out: seq<byte>)
    requires FindFrom(out, 0).None?
    ensures forall i: nat, a: nat, b: nat, c: nat :: !MatchAt(out, i, a, b, c)
  {
    forall i: nat, a: nat, b: nat, c: nat | MatchAt(out, i, a, b, c) ensures false {
      MatchesAtIff(out, i);
    }
  }

  /** When the search finds position `i`, the match there is the first one
      and its greedy split is the one `LineCaptures` computes. */
  lemma FoundIsFirstMatch(out: seq<byte>, i: nat)
    requires FindFrom(out, 0) == Some(i)
    ensures i + |GoodPrefix| <= |out| && LineCaptures(out, i + |GoodPrefix|).Some?
    ensures var (a, b) := LineCaptures(out, i + |GoodPrefix|).value;
            FirstMatch(out, i, a, b) && exists c: nat :: MatchAt(out, i, a, b, c)
  {
    var (a, b) := LineCaptures(out, i + |GoodPrefix|).value;
    forall i': nat, a': nat, b': nat, c': nat | i' < i ensures !MatchAt(out, i', a', b', c') {
      MatchesAtIff(out, i');
    }
    var c: nat :| LineMatch(out, i + |GoodPrefix|, a, b, c);
    assert MatchAt(out, i, a, b, c);
  }

  /** `findall(b'Good signature from "(.*) <(.*)>.*"', out)[0]`, or None when
      the list is empty. */
  function ExtractSigner(out: seq<byte>): (r: Option<Signer>)
    ensures r.None? <==> forall i: nat, a: nat, b: nat, c: nat :: !MatchAt(out, i, a, b, c)
    ensures r.Some? ==> exists i: nat, a: nat, b: nat :: FirstMatch(out, i, a, b)
                                        && r.value == Signer(out[i + |GoodPrefix|..a], out[a + 2..b])
  {
    match FindFrom(out, 0)
    case None =>
      NotFoundMeansNoMatch(out);
      None
    case Some(i) =>
      FoundIsFirstMatch(out, i);
      var (a, b) := LineCaptures(out, i + |GoodPrefix|).value;
      Some(Signer(out[i + |GoodPrefix|..a], out[a + 2..b]))
  }

  /** No byte of `s` is a newline. */
  predicate OneLine(s: seq<byte>) {
    forall k :: 0 <= k < |s| ==> s[k] != NL
  }

  /** The verifier's line for a signer, preceded by `pre` and followed by
      `post`: `Good signature from "<name> <<email>>"`. */
  function SignerLine(pre: seq<byte>, name: seq<byte>, email: seq<byte>, post: seq<byte>): seq<byte> {
    pre + GoodPrefix + name + [SP, LT] + email + [GT, QUOTE] + post
  }

  /** `out` is laid out as `SignerLine(pre, name, email, post)`: where each
      piece sits, stated without the concatenation. */
  ghost predicate LaidOut(out: seq<byte>, pre: seq<byte>, name: seq<byte>, email: seq<byte>, post: seq<byte>) {
    var s := |pre| + |GoodPrefix|;
    var a := s + |name|;
    var b := a + 2 + |email|;
    && |out| == b + 2 + |post|
    && out[..s] == pre + GoodPrefix
    && out[s..a] == name
    && out[a] == SP && out[a + 1] == LT
    && out[a + 2..b] == email
    && out[b] == GT && out[b + 1] == QUOTE
    && out[b + 2..] == post
  }

  lemma SignerLineLayout(pre: seq<byte>, name: seq<byte>, email: seq<byte>, post: seq<byte>)
    ensures LaidOut(SignerLine(pre, name, email, post), pre, name, email, post)
  {
    var out := SignerLine(pre, name, email, post);
    var s := |pre| + |GoodPrefix|;
    var a := s + |name|;
    var b := a + 2 + |email|;
    assert out == (pre + GoodPrefix) + name + [SP, LT] + email + [GT, QUOTE] + post;
    assert out[..s] == pre + GoodPrefix;
    assert out[s..a] == name;
    assert out[a + 2..b] == email;
    assert out[b + 2..] == post;
  }

  /** The laid-out line matches at the end of `pre`, with the split that puts
      `name` and `email` in the two groups. */
  lemma SignerLineMatches(out: seq<byte>, pre: seq<byte>, name: seq<byte>, email: seq<byte>, post: seq<byte>)
    requires LaidOut(out, pre, name, email, post)
    requires OneLine(name) && OneLine(email)
    ensures var a := |pre| + |GoodPrefix| + |name|;
            var b := a + 2 + |email|;
            MatchAt(out, |pre|, a, b, b + 1)
  {
    var s := |pre| + |GoodPrefix|;
    var a0 := s + |name|;
    var b0 := a0 + 2 + |email|;
    assert out[|pre|..s] == out[..s][|pre|..];
    forall k | s <= k < b0 + 1 ensures out[k] != NL {
      if k < a0 {
        assert out[k] == out[s..a0][k - s];
      } else if a0 + 2 <= k < b0 {
        assert out[k] == out[a0 + 2..b0][k - a0 - 2];
      }
    }
  }

  /** No split on the laid-out line reaches past its closing quote or puts
      the ` <` later than the one after `name`. */
  lemma SignerLineBound(out: seq<byte>, pre: seq<byte>, name: seq<byte>, email: seq<byte>, post: seq<byte>,
                        a: nat, b: nat, c: nat)
    requires LaidOut(out, pre, name, email, post)
    requires forall k :: 0 <= k < |email| - 1 ==> !(email[k] == SP && email[k + 1] == LT)
    requires |post| == 0 || post[0] == NL
    requires LineMatch(out, |pre| + |GoodPrefix|, a, b, c)
    ensures a <= |pre| + |GoodPrefix| + |name|
    ensures b <= |pre| + |GoodPrefix| + |name| + 2 + |email|
  {
    var a0 := |pre| + |GoodPrefix| + |name|;
    var b0 := a0 + 2 + |email|;
    if b0 + 2 < |out| {
      assert out[b0 + 2] == post[0];
    }
  }

  /** The prefix does not occur in the laid-out line before `pre` ends. */
  lemma SignerLineNoEarlierPrefix(out: seq<byte>, pre: seq<byte>, name: seq<byte>, email: seq<byte>, post: seq<byte>)
    requires LaidOut(out, pre, name, email, post)
    requires forall i: nat :: i < |pre| ==> !PrefixAt(pre + GoodPrefix, i)
    ensures forall i: nat :: i < |pre| ==> !PrefixAt(out, i)
  {
    var s := |pre| + |GoodPrefix|;
    forall i: nat | i < |pre| ensures !PrefixAt(out, i) {
      assert !PrefixAt(pre + GoodPrefix, i);
      assert out[i..i + |GoodPrefix|] == out[..s][i..i + |GoodPrefix|];
    }
  }

  /** The position and split behind a successful extraction. */
  lemma ExtractSignerWitness(out: seq<byte>) returns (i: nat, a: nat, b: nat)
    requires exists i: nat, a: nat, b: nat, c: nat :: MatchAt(out, i, a, b, c)
    ensures ExtractSigner(out).Some?
    ensures FirstMatch(out, i, a, b)
    ensures ExtractSigner(out).value == Signer(out[i + |GoodPrefix|..a], out[a + 2..b])
  {
    var r := ExtractSigner(out);
    i, a, b :| FirstMatch(out, i, a, b) && r.value == Signer(out[i + |GoodPrefix|..a], out[a + 2..b]);
  }

  /** On the laid-out line, the first match is the one at `pre`'s end and
      its greedy split is the one around `name` and `email`. */
  lemma SignerLineFirstMatch(out: seq<byte>, pre: seq<byte>, name: seq<byte>, email: seq<byte>, post: seq<byte>,
                             i: nat, a: nat, b: nat)
    requires LaidOut(out, pre, name, email, post)
    requires forall i: nat :: i < |pre| ==> !PrefixAt(pre + GoodPrefix, i)
    requires OneLine(name) && OneLine(email)
    requires forall k :: 0 <= k < |email| - 1 ==> !(email[k] == SP && email[k + 1] == LT)
    requires |post| == 0 || post[0] == NL
    requires FirstMatch(out, i, a, b)
    ensures i == |pre|
    ensures a == |pre| + |GoodPrefix| + |name|
    ensures b == |pre| + |GoodPrefix| + |name| + 2 + |email|
  {
    SignerLineMatches(out, pre, name, email, post);
    SignerLineNoEarlierPrefix(out, pre, name, email, post);
    assert PrefixAt(out, i);
    var c: nat :| LineMatch(out, |pre| + |GoodPrefix|, a, b, c);
    SignerLineBound(out, pre, name, email, post, a, b, c);
  }

  /** A line laid out as `SignerLine(pre, name, email, post)` yields
      `(name, email)` under the conditions of `SignerRoundTrip`. */
  lemma LaidOutSigner(out: seq<byte>, pre: seq<byte>, name: seq<byte>, email: seq<byte>, post: seq<byte>)
    requires LaidOut(out, pre, name, email, post)
    requires forall i: nat :: i < |pre| ==> !PrefixAt(pre + GoodPrefix, i)
    requires OneLine(name) && OneLine(email)
    requires forall k :: 0 <= k < |email| - 1 ==> !(email[k] == SP && email[k + 1] == LT)
    requires |post| == 0 || post[0] == NL
    ensures ExtractSigner(out) == Some(Signer(name, email))
  {
    var i, a, b := SignerLinePick(out, pre, name, email, post);
    assert out[i + |GoodPrefix|..a] == name;
    assert out[a + 2..b] == email;
  }

  /** The position and split of the extraction on a laid-out line. */
  lemma SignerLinePick(out: seq<byte>, pre: seq<byte>, name: seq<byte>, email: seq<byte>, post: seq<byte>)
    returns (i: nat, a: nat, b: nat)
    requires LaidOut(out, pre, name, email, post)
    requires forall i: nat :: i < |pre| ==> !PrefixAt(pre + GoodPrefix, i)
    requires OneLine(name) && OneLine(email)
    requires forall k :: 0 <= k < |email| - 1 ==> !(email[k] == SP && email[k + 1] == LT)
    requires |post| == 0 || post[0] == NL
    ensures i == |pre| && a == |pre| + |GoodPrefix| + |name| && b == a + 2 + |email|
    ensures ExtractSigner(out).Some?
    ensures ExtractSigner(out).value == Signer(out[i + |GoodPrefix|..a], out[a + 2..b])
  {
    SignerLineMatches(out, pre, name, email, post);
    i, a, b := ExtractSignerWitness(out);
    SignerLineFirstMatch(out, pre, name, email, post, i, a, b);
  }

  /** The verifier's line formatted from a name and an e-mail address parses
      back to that pair, when the prefix does not occur earlier, neither part
      holds a newline, the address holds no ` <`, and the line ends right
      after the closing quote. */
  lemma SignerRoundTrip(pre: seq<byte>, name: seq<byte>, email: seq<byte>, post: seq<byte>)
    requires forall i: nat :: i < |pre| ==> !PrefixAt(pre + GoodPrefix, i)
    requires OneLine(name) && OneLine(email)
    requires forall k :: 0 <= k < |email| - 1 ==> !(email[k] == SP && email[k + 1] == LT)
    requires |post| == 0 || post[0] == NL
    ensures ExtractSigner(SignerLine(pre, name, email, post)) == Some(Signer(name, email))
  {
    SignerLineLayout(pre, name, email, post);
    LaidOutSigner(SignerLine(pre, name, email, post), pre, name, email, post);
  }

  /** The verifier's usual line for Jane Doe yields her name and address. */
  lemma JaneDoeExample()
    ensures ExtractSigner(SignerLine(Ascii("gpgv: "), Ascii("Jane Doe"), Ascii("jane@example.com"), [NL]))
            == Some(Signer(Ascii("Jane Doe"), Ascii("jane@example.com")))
  {
    var pre := Ascii("gpgv: ");
    forall i: nat | i < |pre| ensures !PrefixAt(pre + GoodPrefix, i) {
      assert (pre + GoodPrefix)[i] != GoodPrefix[0];
    }
    SignerRoundTrip(pre, Ascii("Jane Doe"), Ascii("jane@example.com"), [NL]);
  }
}
