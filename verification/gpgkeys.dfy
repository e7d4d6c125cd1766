/** The check of the daemon's own signing key pair, `GPGKeys` in
    Debomatic/gpg.py (lines 85-114). The key-listing tool is not run here:
    what it would report for each key file is an input. */
module GpgKeys {
  import opened Wrappers
  import opened Bytes
  import opened Outcomes
  import opened KeyRecord

  const PrivateKey: string := "/var/lib/sbuild/apt-keys/sbuild-key.sec"
  const PublicKey: string := "/var/lib/sbuild/apt-keys/sbuild-key.pub"

  /** What `check_output` yields for one key file: a non-zero exit status
      (`CalledProcessError`) or the standard output. */
  datatype ToolResult = Failed | Ok(stdout: seq<byte>)

  /** The attributes of a `GPGKeys` object; `error` is None while the
      attribute `_error` has never been assigned. */
  datatype KeysState = KeysState(private: string, public: string, error: Option<string>)

  /** The end of one `check_keys()` call, with the key files the tool was
      run on, in order. */
  datatype KeysRun = KeysRun(outcome: Outcome<()>, state: KeysState, inspected: seq<string>)

  /** `GPGKeys.__init__`: the two fixed key paths; `_error` is not set. */
  function NewGpgKeys(): (k: KeysState)
    ensures k.private == PrivateKey && k.public == PublicKey && k.error.None?
  {
    KeysState(PrivateKey, PublicKey, None)
  }

  function NotFound(path: string): string {
    path + " not found"
  }

  function NotValid(path: string): string {
    path + " is not a valid GPG key"
  }

  /** Whether one key file's tool run succeeded and its output starts with
      the record for `tag`. */
  predicate KeyAccepted(t: ToolResult, tag: seq<byte>) {
    t.Ok? && IsKeyRecord(t.stdout, tag)
  }

  /** `GPGKeys.check_keys`: inspect the secret key, then the public key; the
      first failure records its message and raises. */
  function CheckKeys(k: KeysState, sec: ToolResult, pub: ToolResult): (r: KeysRun)
    ensures r.outcome.Returned? <==> KeyAccepted(sec, SecTag) && KeyAccepted(pub, PubTag)
    ensures r.outcome.Raised? ==> r.outcome.exc == DebomaticError
    ensures r.state.private == k.private && r.state.public == k.public
    ensures r.outcome.Returned? ==> r.state.error == k.error
    ensures r.inspected == (if KeyAccepted(sec, SecTag) then [k.private, k.public] else [k.private])
    ensures r.outcome.Raised? ==> r.state.error.Some?
    ensures sec.Failed? ==> r.state.error == Some(NotFound(k.private))
    ensures sec.Ok? && !IsKeyRecord(sec.stdout, SecTag) ==> r.state.error == Some(NotValid(k.private))
    ensures KeyAccepted(sec, SecTag) && pub.Failed? ==> r.state.error == Some(NotFound(k.public))
    ensures KeyAccepted(sec, SecTag) && pub.Ok? && !IsKeyRecord(pub.stdout, PubTag) ==>
              r.state.error == Some(NotValid(k.public))
  {
    match sec
    case Failed =>
      KeysRun(Raised(DebomaticError), k.(error := Some(NotFound(k.private))), [k.private])
    case Ok(secOut) =>
      if !IsKeyRecord(secOut, SecTag) then
        KeysRun(Raised(DebomaticError), k.(error := Some(NotValid(k.private))), [k.private])
      else
        match pub
        case Failed =>
          KeysRun(Raised(DebomaticError), k.(error := Some(NotFound(k.public))), [k.private, k.public])
        case Ok(pubOut) =>
          if !IsKeyRecord(pubOut, PubTag) then
            KeysRun(Raised(DebomaticError), k.(error := Some(NotValid(k.public))), [k.private, k.public])
          else
            KeysRun(Returned(()), k, [k.private, k.public])
  }

  /** `GPGKeys.error`: the recorded message, or `AttributeError` while none
      was ever recorded. */
  function KeysError(k: KeysState): Outcome<string> {
    if k.error.Some? then Returned(k.error.value) else Raised(AttributeError)
  }

  /** On a new object a passing check leaves `error()` raising
      `AttributeError`, and a failing one leaves it returning a message that
      names the key file at fault. */
  lemma ErrorAfterCheckKeys(sec: ToolResult, pub: ToolResult)
    ensures var r := CheckKeys(NewGpgKeys(), sec, pub);
            && (r.outcome.Returned? ==> KeysError(r.state) == Raised(AttributeError))
            && (r.outcome.Raised? ==>
                  KeysError(r.state) in {Returned(NotFound(PrivateKey)), Returned(NotValid(PrivateKey)),
                                         Returned(NotFound(PublicKey)), Returned(NotValid(PublicKey))})
  {
  }
}
