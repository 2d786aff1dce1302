# SMTP sinkhole intake, modelled in Dafny

The SMTP sinkhole accepts every mail offered to it. For each accepted mail,
`SmtpSink.process_message` does two things:

* **Persist.** When a mail directory is configured, it stores the raw mail
  there. The file is named after the current second (`YYYYMMDDHHMMSS`)
  followed by the first decimal suffix `0`, `1`, … that is not already taken.
* **Forward.** When forwarding is switched on and an e-mail configuration is
  present, it wraps the mail as the attachment `cuckoo.eml` of a new message.
  It relays that message to the recipients obtained by cutting the configured
  `to` string at every `" ,"`. Any exception inside this step is caught and
  logged.

The project has three modules:

* `Decimal` (decimal.dfy): `Render` is Python's `str(i)` for the probing
  counter, and `Parse` is its inverse.
* `Recipients` (recipients.dfy): `Split` is `to.split(" ,")` and `Join` is its
  inverse.
* `SmtpSinkhole` (smtp_sink.dfy): the candidate file names, the forward step
  as pure functions, and the class `SmtpSink`.

`SmtpSink` holds the settings `mailDir` and `forward`, plus the mail
directory as a map `files` from file name to contents. Its methods work on
that map in place:

* `Probe` is the duplicate-check loop.
* `Persist` is the probe followed by the write.
* `ProcessMessage` persists and then forwards.

The clock is a parameter. The source reads it twice: once for the file name
(`base`) and once for the subject line (`stamp`). The relay server's
behaviour is a parameter too (`RelaySession`): either it completes, or it
fails while connecting, logging in, sending or quitting.

The recipient separator is the two characters space then comma. So
`"a@x ,b@y"` gives two recipients, while `"a@x,b@y"` and `"a@x, b@y"` each
give a single recipient, the whole string.

## Model

| member | source | states |
|---|---|---|
| `Decimal.Render` | utils/smtp_sinkhole.py:42-45 | `str(i)` is a non-empty digit string with no leading zero, and starts with `0` exactly when `i` is zero |
| `Decimal.ParseRender` | utils/smtp_sinkhole.py:42-45 | reading back the rendered suffix gives the counter |
| `Decimal.RenderParse` | utils/smtp_sinkhole.py:45 | every canonical digit string is the rendering of the number it denotes |
| `Decimal.RenderInjective` | utils/smtp_sinkhole.py:42 | distinct counters render to distinct suffixes |
| `SmtpSinkhole.FileName` | utils/smtp_sinkhole.py:42-45 | a candidate name is the timestamp base followed by the suffix as a canonical decimal |
| `SmtpSinkhole.ParseFileName` | utils/smtp_sinkhole.py:38-45 | a parsed name yields a fourteen-digit timestamp base |
| `SmtpSinkhole.FileNameInjective` | utils/smtp_sinkhole.py:42-45 | within one second, distinct suffixes give distinct candidate names |
| `SmtpSinkhole.ParseFileNameOfFileName` | utils/smtp_sinkhole.py:38-45 | a stored name is the 14-digit base followed by the decimal suffix, and parses back to both |
| `SmtpSinkhole.FileNameOfParseFileName` | utils/smtp_sinkhole.py:38-45 | every name that parses is exactly the name built from its base and suffix |
| `SmtpSinkhole.FileNamesUnique` | utils/smtp_sinkhole.py:36-45 | names from different seconds never collide: equal names mean equal base and suffix |
| `SmtpSinkhole.ProbedCount` | utils/smtp_sinkhole.py:41-43 | the first `n` candidate names are `n` different names |
| `SmtpSinkhole.ProbedBound` | utils/smtp_sinkhole.py:41-43 | a directory holding the first `n` candidates has at least `n` files, which bounds the probing loop |
| `SmtpSinkhole.PersistEnabled` | utils/smtp_sinkhole.py:37 | persisting is off exactly when the mail directory is `None` or the empty path |
| `SmtpSinkhole.StoreAddsOneFile` | utils/smtp_sinkhole.py:46-47 | storing adds exactly one file, whose content is the message verbatim, and leaves every existing file as it was |
| `SmtpSinkhole.LeastFreeSuffixUnique` | utils/smtp_sinkhole.py:41-45 | the least free suffix is determined by the directory and the base |
| `SmtpSinkhole.SameSecondSuffixesIncrease` | utils/smtp_sinkhole.py:36-47 | a second mail in the same second gets a larger suffix, and both mails survive in their own files |
| `SmtpSinkhole.SmtpSink.constructor` | utils/smtp_sinkhole.py:29-31 | a sink starts with the given directory setting, forward flag and directory contents |
| `SmtpSinkhole.SmtpSink.Probe` | utils/smtp_sinkhole.py:40-43 | the returned suffix names a file not in the directory, every smaller suffix names one that is, and it is at most the number of files |
| `SmtpSinkhole.SmtpSink.Persist` | utils/smtp_sinkhole.py:36-47 | with a non-empty mail directory, the message is stored under the least free name and nothing else changes; otherwise the directory is unchanged |
| `SmtpSinkhole.SmtpSink.ProcessMessage` | utils/smtp_sinkhole.py:33-68 | persist as above, then forward; the forward outcome does not touch the directory and never raises |
| `SmtpSinkhole.SameSecondArrivals` | utils/smtp_sinkhole.py:38-47 | two mails in the same second into an empty directory land in `base0` and `base1` |
| `SmtpSinkhole.FirstMissing` | utils/smtp_sinkhole.py:55-63 | the key reported is absent, and every key read before it is present; no key is reported exactly when all are present |
| `SmtpSinkhole.Attempt` | utils/smtp_sinkhole.py:52-66 | errors come in the order of the source: a missing `from`/`to`/`server`/`port` first, then a failed connect, then a missing `user`/`password`, then the failing session stage; the block returns only when every setting is present and the session completes; when only quitting fails, the raised error carries the submission already sent |
| `SmtpSinkhole.Forward` | utils/smtp_sinkhole.py:50-68 | forwarding is attempted exactly when the forward flag and the configuration are both present; it ends without error exactly when all settings are present and the session completes; the relay receives the message exactly when all settings are present and the session completes or fails only at quitting |
| `SmtpSinkhole.RelayedSubmission` | utils/smtp_sinkhole.py:53-65 | a copy handed to the relay goes to the split `to` list from `from`, with the raw mail as attachment `cuckoo.eml` and the configured server, port and credentials |
| `SmtpSinkhole.ForwardFailureLogged` | utils/smtp_sinkhole.py:51-68 | a missing setting or a failing session ends as a logged error, never as an exception |
| `SmtpSinkhole.QuitFailureAfterSend` | utils/smtp_sinkhole.py:65-68 | with every setting present, a failure at quitting is logged and the relay still holds the submission |
| `SmtpSinkhole.MissingSenderBeforeConnect` | utils/smtp_sinkhole.py:55-62 | with no settings and a failing connection, the error raised is the missing `from`, not the connect failure |
| `Recipients.Split` | utils/smtp_sinkhole.py:65 | the split has at least one piece, and its first piece is a prefix of the string |
| `Recipients.RelayRecipients` | utils/smtp_sinkhole.py:65 | there is always at least one recipient |
| `Recipients.JoinSplit` | utils/smtp_sinkhole.py:65 | joining the recipients with `" ,"` gives back the configured string |
| `Recipients.PiecesFree` | utils/smtp_sinkhole.py:65 | no recipient contains the separator |
| `Recipients.SplitNoSep` | utils/smtp_sinkhole.py:65 | a string without separator splits into itself alone |
| `Recipients.SplitWithSep` | utils/smtp_sinkhole.py:65 | a string holding the separator splits into at least two pieces |
| `Recipients.SingleRecipientIff` | utils/smtp_sinkhole.py:65 | exactly one recipient if and only if the string has no separator, and then it is the whole string |
| `Recipients.SplitPrefix` | utils/smtp_sinkhole.py:65 | a separator-free first piece is cut off at the first separator |
| `Recipients.SplitJoin` | utils/smtp_sinkhole.py:65 | splitting a join of separator-free pieces gives the pieces back |
| `Recipients.TwoRecipients` | utils/smtp_sinkhole.py:65 | `"a@x ,b@y"` yields the two recipients `a@x` and `b@y` |
| `Recipients.CommaAloneDoesNotSeparate` | utils/smtp_sinkhole.py:65 | `"a@x,b@y"` yields one recipient, the whole string |
| `Recipients.CommaSpaceDoesNotSeparate` | utils/smtp_sinkhole.py:65 | `"a@x, b@y"` yields one recipient, the whole string |

## Left out

- The listener: subclassing `SMTPServer`, the `asyncore` loop and the SMTP dialogue (RFC 5321) are network and event-loop code (utils/smtp_sinkhole.py:26, 84-87).
- The command line and startup in `__main__` are process plumbing. The constructor takes the resulting settings instead.
- `peer`, `mailfrom` and `rcpttos` are not parameters of `ProcessMessage`, because `process_message` never uses them.
- `datetime.now()` and `strftime` are replaced by the two string parameters `base` and `stamp`. `IsTimestampBase` states the shape of `base` where a lemma needs it.
- File system calls are replaced by the map `files`. The model does not cover write failures, permissions, path joining, or newline translation in text mode.
- The model treats `data` as text written verbatim. It does not model the failure of a text-mode write when the listener delivers the mail as bytes.
- Two writers probing at the same time are not modelled, because the code is sequential. The existence check followed by the open is not atomic.
- MIME assembly and the base64 transfer encoding of the attachment (section 6.8 of RFC 2045) are library calls. The model keeps the attachment as the raw payload with its name `cuckoo.eml`.
- The TLS connection, login, debug level, sending and quitting are done by the SMTP client library. Their outcome is the `RelaySession` parameter.
- `int(port)` is folded into the connect stage. Its failure is indistinguishable there, and is caught the same way.
- The `Config("smtp_sinkhole")` loader is not part of this model. A falsy configuration is `None`. A present one is its `email` section as a map, so a missing `email` section is not modelled separately.
- The text of the log line written by `logging.error` is left out. `Logged` carries the caught error instead.
- `SmtpSinkhole.Forward`: relay errors are modelled only as failures of the relay session. Errors inside the message-building library calls are not modelled, though the source would catch and log them in the same way.
- A failure inside `sendmail` after some recipients were accepted is treated as a send failure with nothing handed over; partial delivery is not modelled.
