# Deb-o-Matic signature and key checks in Dafny

This project models `Debomatic/gpg.py` from Deb-o-Matic, the build daemon that accepts uploaded Debian
packages. The file has two classes:

- `GPG` guards each uploaded `.changes` / `.dsc` file. When the `[gpg] gpg` option is on, it:
  - resolves the configured keyring;
  - runs `gpgv` on the file;
  - takes the signer's name and e-mail from the first `Good signature from "… <…>…"` line of `gpgv`'s
    error stream;
  - rewrites the file with the clear-signature envelope stripped off.

  A failure records an error message (`error()`) and raises `DebomaticError`.
- `GPGKeys` checks the daemon's own signing key pair. It lists each key file with `gpg` and requires an
  anchored `sec …` / `pub …` record at the start of the listing.

The model has one module per concern:

- `Bytes`: the `byte` newtype and the ASCII classes `\s` and `\d` of Python's bytes patterns.
- `Search`: first and last index searches with exact contracts.
- `Signature`: the signer pattern `Good signature from "(.*) <(.*)>.*"`.
  - Every way the pattern can match is a ghost predicate (`MatchAt`).
  - The predicates `Greediest` and `FirstMatch` say which match Python's leftmost, greedy, backtracking
    matcher reports.
  - `ExtractSigner` computes it by plain searches, and its contract ties it to the predicates.
- `Envelope`: the envelope pattern `\n\n(.*?)\n\n?-` under `DOTALL`. It gets the same treatment, with a lazy
  group: leftmost opening, shortest body.
- `KeyRecord`: the anchored pattern `sec\s+\d+\S/\S{8}` and its `pub` twin. It is decided without
  backtracking and proved equal to the existence of a split.
- `Gpg`: `GPG.__init__`, `_check_signature`, `_strip_signature`, `check` and `error`.
  - Each is a pure function.
  - Its inputs are the configuration, a `World` (is the keyring a file, `gpgv`'s stderr, the file's text) and
    the object's attributes.
  - Its result is the outcome (returned value or raised exception), the new attributes, the file's new text and
    the trace of outside actions in order.
- `GpgKeys`: `GPGKeys.__init__`, `check_keys` and `error`. What `gpg` reports for each key file is an input.

Python's exceptions are the `Outcomes.Exception` values `DebomaticError`, `AttributeError` and `TypeError`.

The model follows the code in two places where a reader of the class's intent might expect otherwise:

- The envelope is not found: `_strip_signature` opens the file for writing before the search, so the file is
  left empty, not unchanged (`Gpg.StripSignature`, `Gpg.CheckEmptiesFileWithoutEnvelope`).
- No `keyring` option is configured: `_keyring` is never assigned, so a fresh object fails with
  `AttributeError` instead of `DebomaticError` (`Gpg.CheckKeyringUnconfigured`). After an earlier call stored
  `None` in it, the failure is a `TypeError`.

`GPGKeys._error` is likewise unset until a check fails, so `error()` on a passing object raises
`AttributeError` (`GpgKeys.ErrorAfterCheckKeys`).

## Model

| member | source | states |
|---|---|---|
| `Signature.LineCaptures` | Debomatic/gpg.py:58 | on one line, None exactly when the part after the prefix cannot match; otherwise the greedy split, with group 1 longest and then group 2 longest |
| `Signature.MatchWithinLine` | Debomatic/gpg.py:58 | no match reaches past the end of the line its prefix is on, because `.` does not match a newline |
| `Signature.MatchesAtIff` | Debomatic/gpg.py:58 | the executable test at a position holds if and only if some match of the pattern starts there |
| `Signature.FindFrom` | Debomatic/gpg.py:58 | the leftmost position at or after a start where the pattern matches, or None when it matches nowhere after it |
| `Signature.NotFoundMeansNoMatch` | Debomatic/gpg.py:58-63 | an empty search result means the pattern has no match anywhere in the output |
| `Signature.FoundIsFirstMatch` | Debomatic/gpg.py:58-60 | the position found is the first match, and its split is the greedy one |
| `Signature.ExtractSigner` | Debomatic/gpg.py:58-60 | None if and only if the pattern matches nowhere; otherwise the name and e-mail captured by the leftmost match with greedy groups, both on the prefix's line |
| `Signature.SignerRoundTrip` | Debomatic/gpg.py:58-60 | a `Good signature from "name <email>"` line, closed by a newline or the end of output, yields exactly (name, email) when neither part holds a newline, the e-mail holds no ` <`, and no earlier prefix occurs |
| `Signature.JaneDoeExample` | Debomatic/gpg.py:58-60 | a typical `gpgv` line yields the signer's name and address |
| `Envelope.FirstTerminator` | Debomatic/gpg.py:70 | the first position at or after a start where `\n\n?-` matches, or None |
| `Envelope.StripBody` | Debomatic/gpg.py:70 | None if and only if the pattern matches nowhere; otherwise the body of the match with the leftmost opening and, there, the shortest lazy group |
| `Envelope.StripBodyBounds` | Debomatic/gpg.py:70 | the body starts right after the first `\n\n` of the text and ends at the first terminator after it, so it is a contiguous piece at least three characters shorter than the text |
| `Envelope.StripRoundTrip` | Debomatic/gpg.py:70 | a header, a blank line, a body with no line starting with `-`, then one or two line breaks and a `-` line strip to exactly the body |
| `KeyRecord.IsKeyRecord` | Debomatic/gpg.py:99 | true if and only if the output starts with the tag, one or more whitespace bytes, one or more digits, a non-space byte, `/` and eight non-space bytes |
| `KeyRecord.SplitIsMaximal` | Debomatic/gpg.py:99 | any accepting split takes the whole whitespace run and all or all but one of the digit run |
| `KeyRecord.RecordOfShape` | Debomatic/gpg.py:109 | a listing line `tag`, whitespace, digits, algorithm letter, `/`, eight-byte key id, then anything, is accepted |
| `KeyRecord.SecretRecordExample` | Debomatic/gpg.py:99 | a typical first line of a secret-key listing is accepted |
| `Gpg.NewGpg` | Debomatic/gpg.py:31-38 | checking is on exactly when the `gpg` option is present and true; no error, no signer, and `_keyring` unassigned |
| `Gpg.ResolveKeyring` | Debomatic/gpg.py:50-55 | with the `keyring` option set, the code asks whether it is a file, and raises `DebomaticError` with "Keyring not found" exactly when it is not; with the option absent, nothing happens and nothing changes |
| `Gpg.CheckSignature` | Debomatic/gpg.py:49-63 | success means a signer was recorded and the last action was `gpgv` on the stored keyring and the file; failure leaves the signer alone; a changed error is one of the two messages with `DebomaticError`; the file is never touched |
| `Gpg.StripSignature` | Debomatic/gpg.py:65-72 | the file is read, then emptied, then holds the stripped body, or stays empty when the envelope is not found; the new text agrees with the action trace |
| `Gpg.Check` | Debomatic/gpg.py:74-79 | a returned value is the recorded signer; a raise leaves the file and the signer unchanged; any file action comes after a `gpgv` run, with a signer recorded and returned; a changed error is one of the two messages with `DebomaticError` |
| `Gpg.CheckDisabled` | Debomatic/gpg.py:34-37 | with `gpg` absent or false, `check()` on a new object returns None, takes no action and changes nothing |
| `Gpg.CheckKeyringMissing` | Debomatic/gpg.py:50-55 | a configured keyring that is not a file records "Keyring not found" and raises before `gpgv` runs, leaving the file alone |
| `Gpg.CheckKeyringUnconfigured` | Debomatic/gpg.py:50-56 | with checking on and no `keyring` option, a new object raises `AttributeError` with no action taken and no error recorded |
| `Gpg.CheckNoSignature` | Debomatic/gpg.py:56-63 | output without a match records "No valid signatures found", raises, keeps the signer, and neither reads nor rewrites the file |
| `Gpg.CheckSigned` | Debomatic/gpg.py:56-79 | output with a match returns and records the first match's (name, email); the file is then stripped, and the error is unchanged |
| `Gpg.CheckEmptiesFileWithoutEnvelope` | Debomatic/gpg.py:65-72 | a signed file in which no envelope is found ends up empty |
| `GpgKeys.NewGpgKeys` | Debomatic/gpg.py:87-89 | the two fixed sbuild key paths, with `_error` unset |
| `GpgKeys.CheckKeys` | Debomatic/gpg.py:91-111 | it returns if and only if both tool runs succeed and both listings start with their record; the public key is inspected only after the secret key is accepted; each failure raises `DebomaticError` with "… not found" or "… is not a valid GPG key" naming the key at fault |
| `GpgKeys.ErrorAfterCheckKeys` | Debomatic/gpg.py:113-114 | after a passing check on a new object `error()` raises `AttributeError`; after a failing one it returns one of the four messages |

## Left out

- `GPG.__enter__` and `__exit__` (Debomatic/gpg.py:40-47): the advisory `flock` on the file is inter-process
  locking, and nothing in the model depends on it.
- Running `gpgv` and `gpg`, and the `os.devnull` redirection: their outputs and exit status are inputs.
  - `gpgv`'s stderr is `World.verifierStderr`.
  - Each `gpg` listing is a `ToolResult`.
- The `OSError` raised when `gpgv` or `gpg` is not installed is not modelled.
- `os.path.isfile`, which becomes the boolean `World.keyringIsFile`.
- Reading and writing the file. The file is its text before and after. The model leaves out:
  - text decoding;
  - newline translation;
  - the errors an `open` can raise.
- The global configuration object `dom.opts`: options arrive already parsed as `Config`, and the parsing of
  `getboolean` strings (`yes`, `on`, `1`, …) is not modelled.
- gettext translation of the error messages: they are the fixed English strings.
- A general regular-expression engine: only the three fixed patterns are modelled, each by hand.
- `Gpg.Error` and `GpgKeys.KeysError` model the two `error()` accessors. They carry no contract of their own,
  because their results are stated by `Gpg.CheckKeyringMissing`, `Gpg.CheckNoSignature` and
  `GpgKeys.ErrorAfterCheckKeys`.
- `Signature.SignerRoundTrip`: it is stated only for lines that end at a newline or the end of the output, and
  whose e-mail part holds no ` <`. Other lines are covered by `Signature.ExtractSigner`'s general contract.
- `Envelope.StripRoundTrip`: it is stated only for bodies without a line starting with `-`. A dash-escaped
  line ends the body early, as `Envelope.StripBody`'s general contract says.
