/** Removal of the clear-signature envelope (Debomatic/gpg.py, line 70):
    the first group of `findall('\n\n(.*?)\n\n?-', data, DOTALL)`.

    This only roughly undoes the cleartext signature framework of section 7
    of RFC 4880: the body runs from the first blank line to the first line
    that starts with `-`, and the dash-escaping of section 7.1 is not undone,
    so a dash-escaped body line ends the body early. */
module Envelope {
  import opened Wrappers
  import opened Search

  /** The closing part of the pattern, `\n\n?-`, can match at `e`. */
  predicate TerminatorAt(data: string, e: nat) {
    && e < |data|
    && data[e] == '\n'
    && ((e + 1 < |data| && data[e + 1] == '-')
        || (e + 2 < |data| && data[e + 1] == '\n' && data[e + 2] == '-'))
  }

  /** One way the whole pattern can match: the opening `\n\n` at `p`, the
      group `data[p+2..e]` (with DOTALL the lazy `.*?` crosses newlines), and
      the terminator at `e`. */
  ghost predicate EnvelopeMatch(data: string, p: nat, e: nat) {
    PairAt(data, p, '\n', '\n') && p + 2 <= e && TerminatorAt(data, e)
  }

  /** The smallest `e >= lo` at which the terminator matches. */
  function FirstTerminator(data: string, lo: nat): (r: Option<nat>)
    requires lo <= |data|
    ensures r.Some? ==> lo <= r.value && TerminatorAt(data, r.value)
    ensures r.Some? ==> forall e :: lo <= e < r.value ==> !TerminatorAt(data, e)
    ensures r.None? ==> forall e :: lo <= e ==> !TerminatorAt(data, e)
    decreases |data| - lo
  {
    if lo == |data| then None
    else if TerminatorAt(data, lo) then Some(lo)
    else FirstTerminator(data, lo + 1)
  }

  /** The body `findall(...)[0]` yields, or None when the list is empty (the
      source's `IndexError`). A matcher that scans left to right and expands
      the lazy group one character at a time reports the match with the
      smallest opening position and, at that opening, the smallest end. */
  function StripBody(data: string): (r: Option<string>)
    ensures r.None? <==> forall p: nat, e: nat :: !EnvelopeMatch(data, p, e)
    ensures r.Some? ==> exists p: nat, e: nat ::
              && EnvelopeMatch(data, p, e)
              && r.value == data[p + 2..e]
              && forall p': nat, e': nat :: EnvelopeMatch(data, p', e') ==> p < p' || (p == p' && e <= e')
  {
    match FirstPair(data, '\n', '\n', 0)
    case None =>
      None
    case Some(p) =>
      match FirstTerminator(data, p + 2)
      case None =>
        None
      case Some(e) =>
        assert EnvelopeMatch(data, p, e);
        Some(data[p + 2..e])
  }

  /** The body begins right after the first blank-line pair `\n\n` of the
      whole text and ends at the first terminator after it; so it is a
      contiguous piece of the text and never longer than it. */
  lemma StripBodyBounds(data: string)
    requires StripBody(data).Some?
    ensures exists p: nat, e: nat ::
              && PairAt(data, p, '\n', '\n')
              && (forall q :: 0 <= q < p ==> !PairAt(data, q, '\n', '\n'))
              && p + 2 <= e && TerminatorAt(data, e)
              && (forall e' :: p + 2 <= e' < e ==> !TerminatorAt(data, e'))
              && StripBody(data).value == data[p + 2..e]
    ensures |StripBody(data).value| + 3 <= |data|
  {
    var p: nat, e: nat :| && EnvelopeMatch(data, p, e)
                && StripBody(data).value == data[p + 2..e]
                && forall p': nat, e': nat :: EnvelopeMatch(data, p', e') ==> p < p' || (p == p' && e <= e');
    forall q: nat | q < p ensures !PairAt(data, q, '\n', '\n') {
      assert PairAt(data, q, '\n', '\n') ==> EnvelopeMatch(data, q, e);
    }
    forall e': nat | p + 2 <= e' < e ensures !TerminatorAt(data, e') {
      assert TerminatorAt(data, e') ==> EnvelopeMatch(data, p, e');
    }
  }

  /** A body with no line starting with `-`. */
  predicate NoDashLine(body: string) {
    forall k :: 0 <= k < |body| - 1 ==> !(body[k] == '\n' && body[k + 1] == '-')
  }

  /** The clear-signed text built from its pieces. */
  function SignedText(header: string, body: string, sep: string, rest: string): string {
    header + "\n\n" + body + sep + "-" + rest
  }

  /** `data` is laid out as `SignedText(header, body, sep, rest)`: where each
      piece sits, stated without the concatenation. */
  ghost predicate LaidOut(data: string, header: string, body: string, sep: string) {
    var p := |header|;
    var e := p + 2 + |body|;
    && e + |sep| < |data|
    && data[..p] == header
    && data[p] == '\n' && data[p + 1] == '\n'
    && data[p + 2..e] == body
    && data[e..e + |sep|] == sep
    && data[e + |sep|] == '-'
  }

  lemma Layout(header: string, body: string, sep: string, rest: string)
    ensures LaidOut(SignedText(header, body, sep, rest), header, body, sep)
  {
    var data := SignedText(header, body, sep, rest);
    var p := |header|;
    var e := p + 2 + |body|;
    assert data == header + "\n\n" + body + sep + ("-" + rest);
    assert data[..p] == header;
    assert data[p + 2..e] == body;
    assert data[e..e + |sep|] == sep;
  }

  /** In the laid-out text the first `\n\n` is the one after the header. */
  lemma LayoutFirstPair(data: string, header: string, body: string, sep: string)
    requires LaidOut(data, header, body, sep)
    requires forall k :: 0 <= k < |header| - 1 ==> !(header[k] == '\n' && header[k + 1] == '\n')
    requires |header| == 0 || header[|header| - 1] != '\n'
    ensures FirstPair(data, '\n', '\n', 0) == Some(|header|)
  {
    var p := |header|;
    assert PairAt(data, p, '\n', '\n');
    forall q | 0 <= q < p ensures !PairAt(data, q, '\n', '\n') {
      assert data[q] == data[..p][q];
      if q + 1 < p {
        assert data[q + 1] == data[..p][q + 1];
      }
    }
  }

  /** In the laid-out text the first terminator after the opening ends the body. */
  lemma LayoutFirstTerminator(data: string, header: string, body: string, sep: string)
    requires LaidOut(data, header, body, sep)
    requires sep == "\n" || sep == "\n\n"
    requires NoDashLine(body)
    requires sep == "\n" ==> (|body| == 0 || body[|body| - 1] != '\n')
    ensures FirstTerminator(data, |header| + 2) == Some(|header| + 2 + |body|)
  {
    var p := |header|;
    var e := p + 2 + |body|;
    assert data[e] == sep[0];
    assert TerminatorAt(data, e) by {
      if sep == "\n\n" {
        assert data[e + 1] == sep[1];
      }
    }
    forall t | p + 2 <= t < e ensures !TerminatorAt(data, t) {
      var k := t - p - 2;
      assert data[t] == body[k];
      if k + 1 < |body| {
        assert data[t + 1] == body[k + 1];
      } else if sep == "\n\n" {
        assert data[t + 1] == sep[0];
        assert data[t + 2] == sep[1];
      } else {
        assert data[t + 1] == sep[0];
      }
    }
  }

  /** A clear-signed text `header`, blank line, `body`, then one or two line
      breaks and a line starting with `-` strips to exactly `body`, provided
      the header holds no blank line, the body no line starting with `-`, and
      the body does not end in a line break when a single one follows it. */
  lemma StripRoundTrip(header: string, body: string, sep: string, rest: string)
    requires sep == "\n" || sep == "\n\n"
    requires forall k :: 0 <= k < |header| - 1 ==> !(header[k] == '\n' && header[k + 1] == '\n')
    requires |header| == 0 || header[|header| - 1] != '\n'
    requires NoDashLine(body)
    requires sep == "\n" ==> (|body| == 0 || body[|body| - 1] != '\n')
    ensures StripBody(SignedText(header, body, sep, rest)) == Some(body)
  {
    var data := SignedText(header, body, sep, rest);
    Layout(header, body, sep, rest);
    LayoutFirstPair(data, header, body, sep);
    LayoutFirstTerminator(data, header, body, sep);
  }
}
