/** The signature check of one uploaded file, `GPG` in Debomatic/gpg.py
    (lines 29-82). The configuration, the keyring's existence, the
    verifier's diagnostic output and the file's text are inputs; a call
    yields how it ended, the object's new attributes, the file's new text and
    the list of outside actions it took, in order. */
module Gpg {
  import opened Wrappers
  import opened Bytes
  import opened Outcomes
  import opened Signature
  import opened Envelope

  /** The `[gpg]` options the class reads, None when absent: `gpg` as
      `getboolean` yields it and `keyring` as `get` yields it. */
  datatype Config = Config(gpg: Option<bool>, keyring: Option<string>)

  /** The attribute `_keyring`, which the constructor never assigns. */
  datatype KeyringAttr = Unset | NoKeyring | Keyring(path: string)

  /** The attributes of a `GPG` object. */
  datatype GpgState = GpgState(
    file: string,
    enabled: bool,
    error: Option<string>,
    sig: Option<Signer>,
    keyring: KeyringAttr)

  /** What the outside world answers: whether the configured keyring is a
      file, what the verifier writes to its error stream, and the file's text. */
  datatype World = World(keyringIsFile: bool, verifierStderr: seq<byte>, fileText: string)

  /** An action on the outside world, in the order the code performs it. */
  datatype Effect =
    | IsFile(path: string)
    | RunVerifier(keyring: string, target: string)
    | ReadFile(target: string)
    | TruncateFile(target: string)
    | WriteFile(target: string, text: string)
  {
    predicate TouchesFile() {
      ReadFile? || TruncateFile? || WriteFile?
    }
  }

  const KeyringNotFound: string := "Keyring not found"
  const NoValidSignatures: string := "No valid signatures found"

  /** The file's text after an action, when it held `text` before: opening
      for writing empties it and a write on that fresh handle appends. */
  function ApplyEffect(text: string, e: Effect): string {
    match e
    case TruncateFile(_) => ""
    case WriteFile(_, t) => text + t
    case _ => text
  }

  /** The file's text after a sequence of actions. */
  function ApplyEffects(text: string, effects: seq<Effect>): string
    decreases |effects|
  {
    if effects == [] then text else ApplyEffects(ApplyEffect(text, effects[0]), effects[1..])
  }

  lemma {:induction false} ApplyEffectsAppend(text: string, a: seq<Effect>, b: seq<Effect>)
    ensures ApplyEffects(text, a + b) == ApplyEffects(ApplyEffects(text, a), b)
    decreases |a|
  {
    if a == [] {
      assert a + b == b;
    } else {
      assert (a + b)[1..] == a[1..] + b;
      ApplyEffectsAppend(ApplyEffect(text, a[0]), a[1..], b);
    }
  }

  /** `GPG.__init__`: checking is on exactly when the `gpg` option is present
      and true; no error, no signer, and `_keyring` not yet assigned. */
  function NewGpg(file: string, cfg: Config): (g: GpgState)
    ensures g.enabled <==> cfg.gpg == Some(true)
    ensures g.file == file && g.error.None? && g.sig.None? && g.keyring.Unset?
  {
    GpgState(file, if cfg.gpg.Some? then cfg.gpg.value else false, None, None, Unset)
  }

  /** `GPG.error`. */
  function Error(g: GpgState): Option<string> {
    g.error
  }

  /** The end of `_check_signature`: the exception it raised, if any. */
  datatype SigStep = SigStep(raised: Option<Exception>, state: GpgState, effects: seq<Effect>)

  /** `GPG._check_signature`: resolve the keyring, run the verifier, record
      the first signer or the error. */
  function CheckSignature(g: GpgState, cfg: Config, w: World): (r: SigStep)
    ensures r.state.file == g.file && r.state.enabled == g.enabled
    ensures r.raised.None? ==> && r.state.sig.Some? && r.state.keyring.Keyring? && |r.effects| > 0
                               && r.effects[|r.effects| - 1] == RunVerifier(r.state.keyring.path, g.file)
    ensures r.raised.Some? ==> r.state.sig == g.sig
    ensures r.state.error != g.error ==>
              && r.raised == Some(DebomaticError)
              && (r.state.error == Some(KeyringNotFound) || r.state.error == Some(NoValidSignatures))
    ensures forall k :: 0 <= k < |r.effects| ==> !r.effects[k].TouchesFile()
  {
    var k := ResolveKeyring(g, cfg, w);
    if k.raised.Some? then
      k
    else
      match k.state.keyring
      case Unset => SigStep(Some(AttributeError), k.state, k.effects)
      case NoKeyring => SigStep(Some(TypeError), k.state, k.effects)
      case Keyring(path) =>
        var effects := k.effects + [RunVerifier(path, g.file)];
        match ExtractSigner(w.verifierStderr)
        case None => SigStep(Some(DebomaticError), k.state.(error := Some(NoValidSignatures)), effects)
        case Some(s) => SigStep(None, k.state.(sig := Some(s)), effects)
  }

  /** Lines 50-55 of `_check_signature`: when the `keyring` option is present
      it is stored in `_keyring`, and a path that is not a file is replaced by
      None, records "Keyring not found" and raises. An absent option leaves
      `_keyring` as it was. */
  function ResolveKeyring(g: GpgState, cfg: Config, w: World): (r: SigStep)
    ensures r.state.file == g.file && r.state.enabled == g.enabled && r.state.sig == g.sig
    ensures r.raised.Some? <==> cfg.keyring.Some? && !w.keyringIsFile
    ensures r.raised.Some? ==> r.raised == Some(DebomaticError) && r.state.error == Some(KeyringNotFound)
    ensures r.raised.None? ==> r.state.error == g.error
    ensures cfg.keyring.Some? ==> r.effects == [IsFile(cfg.keyring.value)]
    ensures cfg.keyring.None? ==> r.effects == [] && r.state == g
  {
    match cfg.keyring
    case Some(path) =>
      if w.keyringIsFile then SigStep(None, g.(keyring := Keyring(path)), [IsFile(path)])
      else SigStep(Some(DebomaticError), g.(keyring := NoKeyring, error := Some(KeyringNotFound)), [IsFile(path)])
    case None =>
      SigStep(None, g, [])
  }

  /** `GPG._strip_signature`: read the text, reopen the file for writing
      (which empties it), then write the body if the envelope pattern found
      one. When it found none the `IndexError` is swallowed and the file
      stays empty. Yields the file's new text and the actions taken. */
  function StripSignature(file: string, data: string): (r: (string, seq<Effect>))
    ensures StripBody(data).Some? ==> r.0 == StripBody(data).value
    ensures StripBody(data).None? ==> r.0 == ""
    ensures r.0 == ApplyEffects(data, r.1)
    ensures |r.1| >= 2 && r.1[0] == ReadFile(file) && r.1[1] == TruncateFile(file)
  {
    match StripBody(data)
    case Some(body) =>
      var effects := [ReadFile(file), TruncateFile(file), WriteFile(file, body)];
      assert ApplyEffects(data, effects) == ApplyEffects("", effects[2..]);
      assert ApplyEffects("", effects[2..]) == ApplyEffects("" + body, []);
      (body, effects)
    case None =>
      var effects := [ReadFile(file), TruncateFile(file)];
      assert ApplyEffects(data, effects) == ApplyEffects(data, effects[1..]);
      assert ApplyEffects(data, effects[1..]) == ApplyEffects("", []);
      ("", effects)
  }

  /** The end of one `check()` call. */
  datatype CheckRun = CheckRun(
    outcome: Outcome<Option<Signer>>,
    state: GpgState,
    fileText: string,
    effects: seq<Effect>)

  /** `GPG.check`: when checking is on, check the signature and, once a
      signer is recorded, strip the envelope; return the recorded signer. */
  function Check(g: GpgState, cfg: Config, w: World): (r: CheckRun)
    ensures r.outcome.Returned? ==> r.outcome.value == r.state.sig
    ensures r.fileText == ApplyEffects(w.fileText, r.effects)
    ensures r.state.file == g.file && r.state.enabled == g.enabled
    ensures r.outcome.Raised? ==> r.fileText == w.fileText && r.state.sig == g.sig
    ensures forall k :: 0 <= k < |r.effects| && r.effects[k].TouchesFile() ==>
              && r.outcome == Returned(r.state.sig)
              && r.state.sig.Some?
              && exists j :: 0 <= j < k && r.effects[j].RunVerifier?
    ensures r.state.error != g.error ==>
              && r.outcome == Raised(DebomaticError)
              && (r.state.error == Some(KeyringNotFound) || r.state.error == Some(NoValidSignatures))
  {
    if !g.enabled then
      CheckRun(Returned(g.sig), g, w.fileText, [])
    else
      var st := CheckSignature(g, cfg, w);
      if st.raised.Some? then
        NoFileEffects(w.fileText, st.effects);
        CheckRun(Raised(st.raised.value), st.state, w.fileText, st.effects)
      else if st.state.sig.Some? then
        var (text, stripEffects) := StripSignature(g.file, w.fileText);
        NoFileEffects(w.fileText, st.effects);
        ApplyEffectsAppend(w.fileText, st.effects, stripEffects);
        var effects := st.effects + stripEffects;
        assert forall k :: 0 <= k < |effects| && effects[k].TouchesFile() ==>
                 |st.effects| <= k && effects[|st.effects| - 1].RunVerifier?;
        CheckRun(Returned(st.state.sig), st.state, text, effects)
      else
        NoFileEffects(w.fileText, st.effects);
        CheckRun(Returned(st.state.sig), st.state, w.fileText, st.effects)
  }

  /** Actions that do not touch the file leave its text alone. */
  lemma {:induction false} NoFileEffects(text: string, effects: seq<Effect>)
    requires forall k :: 0 <= k < |effects| ==> !effects[k].TouchesFile()
    ensures ApplyEffects(text, effects) == text
    decreases |effects|
  {
    if effects != [] {
      assert !effects[0].TouchesFile();
      NoFileEffects(text, effects[1..]);
    }
  }

  /** With the `gpg` option absent or false, a new object's `check()` returns
      None without asking about the keyring, running the verifier or
      touching the file, and records no error. */
  lemma CheckDisabled(file: string, cfg: Config, w: World)
    requires cfg.gpg != Some(true)
    ensures var g := NewGpg(file, cfg);
            Check(g, cfg, w) == CheckRun(Returned(None), g, w.fileText, [])
  {
  }

  /** A configured keyring that is not a file: "Keyring not found" is
      recorded and `DebomaticError` raised before the verifier runs. */
  lemma CheckKeyringMissing(g: GpgState, cfg: Config, w: World)
    requires g.enabled && cfg.keyring.Some? && !w.keyringIsFile
    ensures var r := Check(g, cfg, w);
            && r.outcome == Raised(DebomaticError)
            && Error(r.state) == Some(KeyringNotFound)
            && r.state.keyring == NoKeyring
            && r.effects == [IsFile(cfg.keyring.value)]
            && r.fileText == w.fileText
  {
  }

  /** With checking on but no `keyring` option, a new object reads the
      never-assigned `_keyring` and fails with `AttributeError`, not
      `DebomaticError`, and records no error message. */
  lemma CheckKeyringUnconfigured(file: string, cfg: Config, w: World)
    requires cfg.gpg == Some(true) && cfg.keyring.None?
    ensures var r := Check(NewGpg(file, cfg), cfg, w);
            && r.outcome == Raised(AttributeError)
            && Error(r.state).None?
            && r.effects == []
            && r.fileText == w.fileText
  {
  }

  /** The keyring the verifier gets: the configured one when it is a file,
      or, with the option absent, a path stored by an earlier call. */
  predicate KeyringUsable(g: GpgState, cfg: Config, w: World) {
    (cfg.keyring.Some? && w.keyringIsFile) || (cfg.keyring.None? && g.keyring.Keyring?)
  }

  function UsedKeyring(g: GpgState, cfg: Config): string
    requires cfg.keyring.Some? || g.keyring.Keyring?
  {
    if cfg.keyring.Some? then cfg.keyring.value else g.keyring.path
  }

  /** The actions before and including the verifier run. */
  function VerifierEffects(g: GpgState, cfg: Config): seq<Effect>
    requires cfg.keyring.Some? || g.keyring.Keyring?
  {
    (if cfg.keyring.Some? then [IsFile(cfg.keyring.value)] else []) + [RunVerifier(UsedKeyring(g, cfg), g.file)]
  }

  /** Verifier output without a `Good signature from "... <...>..."` line:
      "No valid signatures found" is recorded, `DebomaticError` raised, the
      signer left as it was and the file neither read nor rewritten. */
  lemma CheckNoSignature(g: GpgState, cfg: Config, w: World)
    requires g.enabled && KeyringUsable(g, cfg, w)
    requires forall i: nat, a: nat, b: nat, c: nat :: !MatchAt(w.verifierStderr, i, a, b, c)
    ensures var r := Check(g, cfg, w);
            && r.outcome == Raised(DebomaticError)
            && Error(r.state) == Some(NoValidSignatures)
            && r.state.sig == g.sig
            && r.effects == VerifierEffects(g, cfg)
            && r.fileText == w.fileText
  {
  }

  /** Verifier output with a matching line: the first match's name and
      e-mail are recorded and returned, the error is left alone, and only
      then is the file read, emptied and rewritten with the stripped body. */
  lemma CheckSigned(g: GpgState, cfg: Config, w: World)
    requires g.enabled && KeyringUsable(g, cfg, w)
    requires exists i: nat, a: nat, b: nat, c: nat :: MatchAt(w.verifierStderr, i, a, b, c)
    ensures var r := Check(g, cfg, w);
            var out := w.verifierStderr;
            && (exists i: nat, a: nat, b: nat :: FirstMatch(out, i, a, b)
                  && r.outcome == Returned(Some(Signer(out[i + |GoodPrefix|..a], out[a + 2..b]))))
            && r.state.sig == r.outcome.value
            && Error(r.state) == g.error
            && r.effects == VerifierEffects(g, cfg) + StripSignature(g.file, w.fileText).1
            && r.fileText == StripBody(w.fileText).GetOr("")
  {
  }

  /** A signed file in which the envelope pattern finds no body ends up
      empty, not unchanged: it was opened for writing before the search. */
  lemma CheckEmptiesFileWithoutEnvelope(g: GpgState, cfg: Config, w: World)
    requires g.enabled && KeyringUsable(g, cfg, w)
    requires exists i: nat, a: nat, b: nat, c: nat :: MatchAt(w.verifierStderr, i, a, b, c)
    requires forall p: nat, e: nat :: !EnvelopeMatch(w.fileText, p, e)
    ensures Check(g, cfg, w).fileText == ""
  {
  }
}
