/** The anchored key-record test of `GPGKeys.check_keys` (Debomatic/gpg.py,
    lines 99 and 109): `match(b'sec\s+\d+\S/\S{8}', out)` for the secret key
    and the same with `pub` for the public key. `match` anchors at the start
    of the output and ignores whatever follows the eight characters. */
module KeyRecord {
  import opened Bytes
  import opened Search

  const SecTag: seq<byte> := Ascii("sec")
  const PubTag: seq<byte> := Ascii("pub")

  predicate StartsWith(out: seq<byte>, tag: seq<byte>) {
    |tag| <= |out| && out[..|tag|] == tag
  }

  /** `\S/\S{8}` at `p`: a non-space byte, a slash, then eight non-space bytes. */
  predicate SlashTail(out: seq<byte>, p: nat) {
    && p + 10 <= |out|
    && !IsSpace(out[p])
    && out[p + 1] == SLASH
    && forall j :: p + 2 <= j < p + 10 ==> !IsSpace(out[j])
  }

  /** One way the pattern matches: the tag, `w` whitespace bytes for `\s+`,
      `k` digits for `\d+`, then `\S/\S{8}`. The pattern matches exactly when
      some such `w` and `k` exist. */
  ghost predicate RecordSplit(out: seq<byte>, tag: seq<byte>, w: nat, k: nat) {
    && StartsWith(out, tag)
    && 1 <= w && 1 <= k && |tag| + w + k <= |out|
    && (forall j :: |tag| <= j < |tag| + w ==> IsSpace(out[j]))
    && (forall j :: |tag| + w <= j < |tag| + w + k ==> IsDigit(out[j]))
    && SlashTail(out, |tag| + w + k)
  }

  /** Decides the pattern without backtracking: the whitespace run is taken
      whole, then the digit run either ends right before `\S/` or gives its
      last digit to `\S` when a slash follows the digits directly. */
  function IsKeyRecord(out: seq<byte>, tag: seq<byte>): (r: bool)
    ensures r <==> exists w: nat, k: nat :: RecordSplit(out, tag, w, k)
  {
    if !StartsWith(out, tag) then
      false
    else
      var w := RunLength(out, |tag|, IsSpace);
      var d := |tag| + w;
      var n := RunLength(out, d, IsDigit);
      if w == 0 || n == 0 then
        assert forall w': nat, k': nat :: !RecordSplit(out, tag, w', k') by {
          forall w': nat, k': nat | RecordSplit(out, tag, w', k') ensures false {
            SplitIsMaximal(out, tag, w', k');
          }
        }
        false
      else if SlashTail(out, d + n) then
        assert RecordSplit(out, tag, w, n);
        true
      else if n >= 2 && SlashTail(out, d + n - 1) then
        assert RecordSplit(out, tag, w, n - 1);
        true
      else
        assert forall w': nat, k': nat :: !RecordSplit(out, tag, w', k') by {
          forall w': nat, k': nat | RecordSplit(out, tag, w', k') ensures false {
            SplitIsMaximal(out, tag, w', k');
          }
        }
        false
  }

  /** Any split takes the whole whitespace run, and its digit count is the
      whole digit run or one less. */
  lemma SplitIsMaximal(out: seq<byte>, tag: seq<byte>, w: nat, k: nat)
    requires RecordSplit(out, tag, w, k)
    ensures w == RunLength(out, |tag|, IsSpace)
    ensures var n := RunLength(out, |tag| + w, IsDigit);
            (n == k && SlashTail(out, |tag| + w + n)) || (n == k + 1 && SlashTail(out, |tag| + w + n - 1))
  {
    var W := RunLength(out, |tag|, IsSpace);
    if W > w {
      assert IsDigit(out[|tag| + w]);
    }
    var d := |tag| + w;
    var n := RunLength(out, d, IsDigit);
    if n == k + 1 {
      assert IsDigit(out[d + k]);
    }
  }

  /** A listing line built as the tag, a whitespace run, a digit run, an
      algorithm letter, a slash and an eight-byte key id is accepted,
      whatever follows it. */
  lemma RecordOfShape(tag: seq<byte>, ws: seq<byte>, digits: seq<byte>, algo: byte, id: seq<byte>, rest: seq<byte>)
    requires |ws| >= 1 && forall j :: 0 <= j < |ws| ==> IsSpace(ws[j])
    requires |digits| >= 1 && forall j :: 0 <= j < |digits| ==> IsDigit(digits[j])
    requires !IsSpace(algo)
    requires |id| == 8 && forall j :: 0 <= j < |id| ==> !IsSpace(id[j])
    ensures IsKeyRecord(tag + ws + digits + [algo, SLASH] + id + rest, tag)
  {
    var out := tag + ws + digits + [algo, SLASH] + id + rest;
    var w := |ws|;
    var k := |digits|;
    var p := |tag| + w + k;
    assert out[..|tag|] == tag;
    forall j | |tag| <= j < |tag| + w ensures IsSpace(out[j]) {
      assert out[j] == ws[j - |tag|];
    }
    forall j | |tag| + w <= j < p ensures IsDigit(out[j]) {
      assert out[j] == digits[j - |tag| - w];
    }
    assert out[p] == algo && out[p + 1] == SLASH;
    forall j | p + 2 <= j < p + 10 ensures !IsSpace(out[j]) {
      assert out[j] == id[j - p - 2];
    }
    assert RecordSplit(out, tag, w, k);
  }

  /** A typical first line of a secret-key listing is accepted. */
  lemma SecretRecordExample()
    ensures IsKeyRecord(SecTag + Ascii("   ") + Ascii("2048") + [Ascii("R")[0], SLASH] + Ascii("1A2B3C4D")
                        + Ascii(" 2015-01-01"), SecTag)
  {
    RecordOfShape(SecTag, Ascii("   "), Ascii("2048"), Ascii("R")[0], Ascii("1A2B3C4D"), Ascii(" 2015-01-01"));
  }
}
