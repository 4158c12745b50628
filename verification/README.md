# Verified models of porch

porch examines how a host is set up (TLS, DNS, certificates, the page it serves) and
keeps as little as it can about who asked. The Dafny files here model the parts of it
that decide something in memory, and prove what those parts are for:

- **The three token-bucket limiters** (`Buckets`, `TargetLimit`, `HostPromise`, `ClientLimit`,
  `Attempts`).
  Each keeps a map it forgets from on purpose: on a sweep, on a forced sweep, on a timer,
  by dropping an arbitrary entry. `Buckets` holds a reference limiter that forgets nothing.
  Each limiter is a class whose methods are proved against a function of its state, and
  that function answers every run of requests and timer ticks exactly as the reference
  does. Grant bounds and retention times follow.
- **The access gate** (`AccessFile`, `Sessions`, `GateProtocol`, `GateRuns`, `GateHistory`):
  the password file over an ideal seal, the session table, and a step relation for sign-ins,
  sign-outs and password changes that interleave, with the one-place derivation slot between
  them: what no run does, what runs there are, and what must have happened for a session or
  a new file to be there.
- **The DNS client** (`WireName`, `AnswerChain`, `AnswerText`, `CaaWalk`): names on the wire
  with compression pointers (section 4.1.4 of RFC 1035), answer sections written out and
  read back, the alias chain of an answer, queries and replies, the rotation over resolvers,
  and the search for the governing CAA record set (section 3 of RFC 8659).
- **Certificate transparency receipts** (`Der`, `Precertificate`, `PrecertificateBytes`,
  `SctList`, `Receipts`): a DER reader and writer, the certificate rebuilt as its log signed
  it (section 3.2 of RFC 6962), the same in plain bytes, two readers of receipt lists, and
  the verdict drawn from the counts.
- **The RSALib fingerprint** (`Roca`, `RocaOrders`, `RocaOdds`): the test, what it detects,
  and how many residues pass it.
- **The markup scanner and what it keeps** (`MarkupScan`, `Scanner`, `NotMarkup`,
  `TagText`, `PageText`, `Addresses`, `UrlStandard`, `References`, `AddressText`): a cursor
  with nested loops over any input, the text it must not read as markup, whole pages and
  addresses written out and read back, where an address leads and where the URL Standard has
  it lead, and the list of references.
- **The published counters** (`Tallies`, `Counters`): figures as values and every run of
  them, and the same figures in maps held by reference, from which copies are given out.
- **The printed distinguished name** (`DistinguishedName`, `AttributeNames`), with a reader of
  the grammar of RFC 4514 and one that takes everything the code prints.

`Options`, `Lists`, `Bytes`, `Ascii` and `Numbers` hold what these share.

A file whose code works by changing things is modelled as a class or a method with loops.
Its contract ties the result or the new state to a function of the old one (`Allowed`,
`Rebuilt`, `ReadTag`, `Recorded` and the like), and the lemmas are about those functions,
so that a method and the properties of its specification hold together. Times are integers
of nanoseconds, tokens are exact reals, and the clock, the random source, the network, the
hash functions and the answer of the operating system are parameters.

## Where the code and its documentation part

- `internal/httpapi/targetlimit.go:84-91` and `:141-152` say that a host that is refused had
  eight scans *inside one refill interval*. It fails in two ways.
  - Of a bucket: one scan every 29 seconds is refused in the end and no interval of 30
    seconds ever held three scans (`TargetLimit.SlowDrain`). The interval before a refusal
    held eight of the bucket's scans if and only if the bucket's standing when it began was
    at least seven (`TargetLimit.EightInWindow`). Since the bucket was last full it granted
    eight in any case (`TargetLimit.RefusedNeedsEight`).
  - Of a host: names share buckets, as `:99-108` wants, and a host is refused without a
    single scan when another took what the bucket held (`HostPromise.SharedBucketRefuses`).
    Over a set of targets, a refusal means eight scans of that very target since its bucket
    was last full, and inside one interval exactly where that interval began with seven, if
    and only if no two targets of the set share a bucket (`HostPromise.PromiseExact`); over
    more than 65536 targets it never does (`HostPromise.TooManyTargets`).
- `internal/httpapi/limit.go:23-27` says that a full map refuses new clients. The code
  evicts an entry instead, as `:177-191` explains, and admits them
  (`ClientLimit.NewClientAdmitted`).
- `internal/access/gate.go:26-28` says that a flood of sign-ins costs the flooder their own
  sessions and nobody else's for long. The oldest go first, whoever opened them: a session
  opened before the flood survives it if and only if it, the sessions younger than it and
  the flood fit in the table of 32 together (`Sessions.FloodExact`), so 32 sign-ins end
  every session opened before them (`Sessions.FloodEndsEarlier`).
- `internal/certinfo/roca.go:28-30` puts the odds of a chance mark at around one in 2^100.
  The residues the mark allows, counted, are more than one in 2^31 (`RocaOdds.MarkedOdds`).
- `internal/markup/markup.go:392-402` reads an address the way the URL Standard does, but
  for one case: the base's own scheme before a single slash, as in "https:/a", is relative
  in the Standard and a host to the code. They part there and over the empty address, which
  is not fetched, and nowhere else (`UrlStandard.StandardExact`, `UrlStandard.OneSlashParts`).
- `internal/dnsclient/parse.go:299-361` bounds the labels of a name by 255 bytes and then
  adds the root, so a name of 256 bytes is read; section 2.3.4 of RFC 1035 allows 255
  (`WireName.LongestName` has one). A name in a message is read within the RFC's bound if
  and only if its labels take at most 254 bytes, 253 with dots between
  (`WireName.ReadWithinBound`); a name that is written, if and only if its text has at most
  253 (`WireName.WrittenWithinBound`). `encodeName` also writes text of 255 bytes, which
  `readName` refuses: the round trip holds exactly up to 254 (`WireName.RoundTrip`).
- `internal/scan/receipts.go:78-81` compares the verified receipts with those *counted*,
  and a malformed embedded list counts as none, while the receipts in it are still checked.
  So a certificate is reported with all receipts verified whenever as many receipts verify,
  inside it or in the handshake, as the handshake carries (`Receipts.VerdictUncounted`):
  with an unreadable list and one good receipt of the handshake
  (`Receipts.MalformedListUnnoticed`), and even with a handshake receipt whose signature is
  bad, if the list holds one that verifies beside one of another version
  (`Receipts.BadSignatureUnnoticed`). Whatever a handshake may carry, the verdict means what
  it says if and only if the certificate has no list or one the counter can read
  (`Receipts.VerdictTrusted`).
- `internal/certinfo/certinfo.go:1196-1233` takes entries of 43 bytes and more and
  `internal/ctlogs/verify.go:249-269` of 47 and more, so the two readers of one list part
  over entries in between (`SctList.ReadersAgree`, `SctList.ShortReceipt`).
- `internal/certinfo/name.go:138-139` promises the escaping of RFC 4514, whose section 2.4
  has U+0000 written as `\00`; the code prints that character as it is. A reader of the
  RFC's grammar takes printed text back if and only if it holds no U+0000, and refuses it
  otherwise (`DistinguishedName.GrammarTakes`, `DistinguishedName.NulRefused`). It also
  refuses "#unreadable" and the encoding of no bytes, which the code prints where it has
  nothing better. A reader that takes these too reads every name in one way only.

## Model

| member | source | states |
|---|---|---|
| `Buckets.GrantBound` | internal/httpapi/targetlimit.go:252-284 | over any stretch of requests a limiter that never forgets grants one key at most what it held, one request per refill interval, and one burst per reset |
| `Buckets.RefusedAfterBurst` | internal/httpapi/targetlimit.go:252-284 | a refusal means that more than the burst less one was granted since the key was last full |
| `Buckets.RefusedGrants` | internal/httpapi/targetlimit.go:252-284 | in any window that ends with a refusal the key was granted n requests, up to its burst, if and only if its standing at the start and what came back make n |
| `TargetLimit.BurstFor` | internal/httpapi/targetlimit.go:171-185 | every bucket's secret allowance is 8, 9 or 10 |
| `TargetLimit.AllowanceAny` | internal/httpapi/targetlimit.go:171-185 | a bucket's allowance is eight under some key, nine under some and ten under some, and nothing else under any |
| `TargetLimit.TargetLimiter.Sweep` | internal/httpapi/targetlimit.go:298-310 | drops exactly the buckets that have refilled, at most once an interval |
| `TargetLimit.TargetLimiter.Allow` | internal/httpapi/targetlimit.go:252-284 | the answer and the whole new state are those of the specification the run lemmas are about |
| `TargetLimit.TargetLimiter.IdleTick` | internal/httpapi/targetlimit.go:316-326 | the timer sweeps whatever the interval and is armed again only while something is held |
| `TargetLimit.NeverFull` | internal/httpapi/targetlimit.go:132-138 | sixteen bits name every bucket, so the refusal for a full map cannot be reached |
| `TargetLimit.ForgettingChangesNothing` | internal/httpapi/targetlimit.go:252-326 | on every run of requests and timer ticks, every answer is the one a limiter that never forgets a bucket gives |
| `TargetLimit.BucketBound` | internal/httpapi/targetlimit.go:94-97 | one bucket is granted at most ten requests and one more per thirty seconds, however the run goes |
| `HostPromise.HostLoad` | internal/httpapi/targetlimit.go:26-35 | one target carries at most ten scans and one more per thirty seconds, whoever asks and whoever shares its bucket |
| `TargetLimit.FoldedTogether` | internal/httpapi/targetlimit.go:154-162 | two spellings are folded to one host if and only if they differ in case and in one dot at the end |
| `TargetLimit.SharedUnderEveryKey` | internal/httpapi/targetlimit.go:240-248 | two targets share a bucket under every key exactly when they are one name, however spelled, and one port |
| `TargetLimit.OneBudget` | internal/httpapi/targetlimit.go:228-248 | a run with names spelled otherwise draws on the same buckets and gets the same answers |
| `TargetLimit.RefusedNeedsEight` | internal/httpapi/targetlimit.go:252-284 | a bucket that refuses granted at least eight scans since it was last full, of whatever hosts |
| `TargetLimit.EightInWindow` | internal/httpapi/targetlimit.go:252-284 | in the interval before a refusal the bucket granted eight scans if and only if it stood at seven or more when the interval began; likewise for a window of any length |
| `HostPromise.OwnNeedsEight` | internal/httpapi/targetlimit.go:84-91 | where no other target of the run shares its bucket, a host that is refused was granted at least eight scans since the bucket was last full |
| `HostPromise.OwnWindow` | internal/httpapi/targetlimit.go:141-152 | and eight of them inside one refill interval if and only if the bucket stood at seven or more when the interval began; likewise for a window of any length |
| `HostPromise.SharedBucketRefuses` | internal/httpapi/targetlimit.go:99-108 | two targets that share a bucket: one takes all it holds, and the other is refused with none of its own scans granted |
| `HostPromise.PromiseExact` | internal/httpapi/targetlimit.go:84-152 | over any set of targets, every refusal on every run tells that of its own target if and only if no two targets share a bucket |
| `HostPromise.TooManyTargets` | internal/httpapi/targetlimit.go:132-138 | over more than 65536 targets the promise is broken whatever the key |
| `TargetLimit.SlowDrain` | internal/httpapi/targetlimit.go:84-91 | not inside one interval: a host scanned every 29 seconds is refused, and no interval holds three of its scans |
| `TargetLimit.Retention` | internal/httpapi/targetlimit.go:286-326 | with a punctual timer, on every run from an empty limiter, a held bucket has a timer pending and is no older than its own refill time and one sweep interval: one refill after a single scan, ten at most |
| `ClientLimit.Limiter.Sweep` | internal/httpapi/limit.go:148-161 | drops exactly the entries idle for longer than the idle period, at most once an interval |
| `ClientLimit.Limiter.MakeRoom` | internal/httpapi/limit.go:192-219 | a forced sweep at most once a second, and then one arbitrary entry exactly when the map is still full |
| `ClientLimit.Limiter.Allow` | internal/httpapi/limit.go:103-140 | the answer, the evicted entry if any and the whole new state are those of the specification |
| `ClientLimit.Limiter.IdleTick` | internal/httpapi/limit.go:165-175 | the timer sweeps whatever the interval and is armed again only while something is held |
| `ClientLimit.ForgettingChangesNothing` | internal/httpapi/limit.go:103-161 | on every run, with evictions of any entries, every answer is that of a limiter that forgets only what was evicted, and the map stays within its cap |
| `ClientLimit.WindowBound` | internal/httpapi/limit.go:103-140 | in any window a client is granted at most its burst, one request per refill, and one more burst per eviction of it |
| `ClientLimit.RefusedAfterOwnBurst` | internal/httpapi/limit.go:103-140 | a client that is refused was granted its whole burst since it last had it; no other client's requests are held against it |
| `ClientLimit.RefusedExactly` | internal/httpapi/limit.go:103-140 | unless it was evicted, a refused client was granted n requests in any window before, up to its burst, if and only if what it stood at and one per refill since make n |
| `ClientLimit.ForcedApart` | internal/httpapi/limit.go:192-205 | however many clients come to a full map, it is gone through for them at most once a second |
| `ClientLimit.NewClientAdmitted` | internal/httpapi/limit.go:177-219 | the map never exceeds its cap, and a client it does not hold is admitted exactly when it may hold any |
| `ClientLimit.Retention` | internal/httpapi/limit.go:221-233 | with a punctual timer no client is held longer than RetentionPeriod after its last request |
| `Attempts.Gate.SweepLocked` | internal/access/gate.go:381-391 | keeps exactly the entries of the last five minutes and arms the timer while any remain |
| `Attempts.Gate.Allow` | internal/access/gate.go:345-369 | the answer and the whole new table are those of the specification, with the sweep between the refill and the spending |
| `Attempts.Gate.Sweep` | internal/access/gate.go:372-377 | a tick sweeps and arms the timer again only while entries remain |
| `Attempts.ForgettingChangesNothing` | internal/access/gate.go:345-391 | on every run, every answer is that of a limiter that forgets nothing but flushed tables |
| `Attempts.NeverForgets` | internal/access/gate.go:345-391 | with no flush the gate answers as one that never forgets anybody |
| `Attempts.WindowBound` | internal/access/gate.go:345-369 | an address gets five attempts, one more a minute, and five per flush of the table |
| `Attempts.RefusedNeedsFive` | internal/access/gate.go:345-369 | an address that is refused was granted at least five attempts since it was last full; nobody else's are held against it |
| `Attempts.RefusedExactly` | internal/access/gate.go:345-369 | with no flush a refused address was granted n attempts in any window before, up to five, if and only if what it stood at and one a minute since make n |
| `Attempts.Bounded` | internal/access/gate.go:351-353 | the table never grows past its bound |
| `Attempts.FewNeverFlush` | internal/access/gate.go:350-356 | the table is never flushed while no more than 1024 addresses come |
| `Attempts.Retention` | internal/access/gate.go:372-391 | with a punctual timer an address is dropped within six minutes of its last attempt |
| `AccessFile.Store.Create` | internal/access/access.go:104-133 | a file appears exactly when the password is fit, none stood there and it could be written; each failure is reported as what it was, and a failing close leaves the file standing |
| `AccessFile.Store.Change` | internal/access/access.go:170-208 | the file is replaced exactly when the new password is fit and the current one opens it; what is sealed anew is the key that was in it, and each failure leaves the file and is reported as what it was |
| `AccessFile.FitPasswords` | internal/access/access.go:210-218 | an ASCII password may be chosen exactly when it has 12 to 256 characters, one of the widest characters exactly with 12 to 64 |
| `AccessFile.SealOpens` | internal/access/access.go:136-163 | of a file just sealed the password it was sealed under opens the sealed key, and no other opens it |
| `AccessFile.OpensExactly` | internal/access/access.go:136-163 | a password opens what stands at the path exactly when a file of this version stands there, sealed under it in at least 600,000 rounds with a salt, a nonce and a key of their sizes |
| `Sessions.Gate.Open` | internal/access/gate.go:280-304 | a sign-in drops the expired, then only as many of the oldest as make room, and enters the new session; the key is set once |
| `Sessions.Gate.Valid` | internal/access/gate.go:308-324 | a token is valid exactly when it names a session that has not ended, and an ended one is dropped |
| `Sessions.Gate.KeepOnly` | internal/access/gate.go:333-342 | leaves the one session and no other |
| `Sessions.OpenedBounded` | internal/access/gate.go:290-304 | a sign-in leaves at most 32 sessions, its own among them |
| `Sessions.FloodTakesTheOldest` | internal/access/gate.go:290-303 | one sign-in ends a live session only when 31 others end no earlier: the oldest go first |
| `Sessions.FloodExact` | internal/access/gate.go:26-28 | a session opened before a run of sign-ins survives it if and only if it, the younger sessions and the run fit in the table together |
| `Sessions.FloodEndsEarlier` | internal/access/gate.go:26-28 | 32 sign-ins end every session opened before them |
| `GateProtocol.StepKeeps` | internal/access/gate.go:212-342 | every step keeps the invariant: the slot has one holder, what its holder read still holds of the file, sessions are entitled outside a change, the key in memory is the sealed one |
| `GateProtocol.FreeMeansEntitled` | internal/access/gate.go:234-257 | in every interleaving, whenever the slot is free every session was opened with the password now in the file or made the last change |
| `GateProtocol.OneDerivation` | internal/access/gate.go:263-280 | one request at a time is between taking the slot and giving it back |
| `GateProtocol.DataKeyKept` | internal/access/access.go:165-208 | no password change replaces the data key, and the key in memory is that key |
| `GateRuns.SignInExactly` | internal/access/gate.go:263-304 | from any state with the slot free: a sign-in can be admitted if and only if its password opens the file, and refused if and only if it does not; admitted, it has a session of twelve hours, the key is in memory, every other session left was there, and with room none that is live is gone; refused, everything is as before |
| `GateRuns.SealedSignIn` | internal/access/gate.go:263-304 | of a sealed file the one password that signs in is the one it was sealed under, and the key in memory is the one it was sealed with |
| `GateRuns.ChangeExactly` | internal/access/gate.go:212-257 | a password change replaces the file if and only if its session is live at its check, the new password is fit, the current one opens the file and the save completes; the state after it is exactly the new file, that session alone and the slot free; refused or not saved, everything is as before |
| `GateRuns.NotSignedIn` | internal/access/gate.go:220-224 | without a live session a change ends at its check, and all that is gone is the session that had expired |
| `GateRuns.ChangedOpens` | internal/access/gate.go:234-257 | after a change the new password and no other opens the file, to the key that was there, and the session that changed it is still signed in |
| `GateRuns.SlotComesBack` | internal/access/gate.go:234-270 | in whatever state a run has come to, the holder of the slot can give it back within three steps |
| `GateHistory.FileReplaced` | internal/access/gate.go:212-257 | in every interleaving the file is only replaced by a change that arrived, whose session was live when looked at, whose new password is fit and whose current one opens the file as it stood; and what is sealed anew is the key that was in it |
| `GateHistory.SessionComes` | internal/access/gate.go:263-304 | in every interleaving a session only comes by a sign-in that arrived with the password that opens the file as it stands, and stays what it was until it goes |
| `WireName.ReadName` | internal/dnsclient/parse.go:299-361 | on every input the loop ends and computes the recursive expansion of the name at that offset, with at most the allowed pointers followed, and where the record goes on |
| `WireName.AfterPointer` | internal/dnsclient/parse.go:330-345 | after labels and a pointer the record goes on two bytes after the labels, wherever the pointer leads |
| `WireName.CompressedName` | internal/dnsclient/parse.go:299-361 | a name whose end stands earlier in the message reads as if written in full, if it is short enough, and ends after its pointer |
| `WireName.PiecesRead` | internal/dnsclient/parse.go:299-361 | however a name was broken up by pointers it reads as if written in full, if and only if its labels take at most 255 bytes and there are at most sixteen pointers |
| `WireName.Canonical` | internal/dnsclient/parse.go:278-382 | a name that was read is folded, free of pointers, made of labels of 1 to 63 bytes, at most 255 bytes of them and the root, and read again it is itself; the record goes on after its start and within the message |
| `WireName.RandomiseCase` | internal/dnsclient/dnsclient.go:634-652 | the buffer changes in place and folds to what it folded to |
| `WireName.EncodeName` | internal/dnsclient/dnsclient.go:601-632 | text is written exactly when its labels and length are in bounds, in some case of the one encoding |
| `WireName.RoundTrip` | internal/dnsclient/parse.go:299-382 | a name written in any case, anywhere in a message, reads back folded and ends where it was written, if and only if its text has at most 254 bytes |
| `WireName.ReadWithinBound` | internal/dnsclient/parse.go:299-361 | in any message, a name that is read has at most 255 bytes, as RFC 1035 asks, if and only if its labels take at most 254, 253 with dots between |
| `WireName.WrittenWithinBound` | internal/dnsclient/dnsclient.go:601-632 | a name that is written is read within that bound if and only if its text has at most 253 bytes; with 254 it is read and over it, with 255 it is not read |
| `WireName.LongestName` | internal/dnsclient/parse.go:299-361 | a name of 254 bytes of text is written in 256 bytes, and it is read |
| `WireName.NameText` | internal/dnsclient/parse.go:466-494 | the loop computes the text of a name: lower case, ordinary bytes, bounded |
| `WireName.TextIsPlain` | internal/dnsclient/parse.go:455-494 | whatever a resolver sends, the text is bounded and made of ordinary bytes alone |
| `WireName.TextRoundTrip` | internal/dnsclient/parse.go:466-494 | an ordinary name that is asked about, read back and put into text is that name in lower case |
| `AnswerChain.ChainFrom` | internal/dnsclient/parse.go:516-544 | the set the loop fills is that of the names reached from the question in at most eight hops, each by the first alias of the reply at that name |
| `AnswerChain.Cycle` | internal/dnsclient/parse.go:496-544 | once a chain comes back to a name it visits nothing new |
| `AnswerChain.ReadSection` | internal/dnsclient/parse.go:116-170 | the records of the section, each where the one before it ended, or none if any is cut short |
| `AnswerText.RecordReads` | internal/dnsclient/parse.go:116-170 | a record written with its owner in full or as a pointer, then type, class, lifetime, length and data, reads back, and the next stands after it |
| `AnswerText.SectionReads` | internal/dnsclient/parse.go:116-170 | a whole section written so reads back record by record |
| `AnswerChain.ParseAnswers` | internal/dnsclient/parse.go:116-211 | parses, in order, the records that answer and no others |
| `AnswerChain.KeptExactly` | internal/dnsclient/parse.go:116-211 | a record is kept exactly when it is of the type asked about and its owner is reached from the question |
| `AnswerChain.KeptByAliases` | internal/dnsclient/parse.go:116-211 | a record is kept exactly when it is of the type asked about and its owner is the name asked about or one that at most eight records of type 5 lead to, each the first at its name |
| `AnswerChain.StrangerSkipped` | internal/dnsclient/parse.go:100-115 | a name no alias of the reply leads to is never answered for |
| `AnswerChain.BuildQuery` | internal/dnsclient/dnsclient.go:552-589 | the bytes of a query: identifier, flags, one question, and an OPT record |
| `AnswerChain.ParseReply` | internal/dnsclient/parse.go:22-98 | accepts exactly a reply to this identifier and this question, and reports each way a message is not one |
| `AnswerChain.QueryEchoed` | internal/dnsclient/parse.go:22-98 | a query sent back with any flags, counts and records after it: which bytes make it a reply, what its last four bits say, and when it counts as validated |
| `AnswerChain.TakenExactly` | internal/dnsclient/parse.go:22-68 | a message is taken for an answer exactly when it has the identifier, the response bit, the query operation, one question, and that question byte for byte |
| `AnswerChain.AnswersOneQuery` | internal/dnsclient/parse.go:22-98 | a message that is taken for an answer is one to a single identifier, name in its very case, and type: no wire name begins another |
| `CaaWalk.ResolverSet.Ask` | internal/dnsclient/dnsclient.go:312-331 | the resolvers are tried in rotation, each at most once; an answer is the last attempt's and its resolver is remembered; a failure tried all and reports the first error |
| `CaaWalk.RotationOnce` | internal/dnsclient/dnsclient.go:312-331 | a full rotation reaches every resolver exactly once |
| `CaaWalk.LookupCaa` | internal/dnsclient/dnsclient.go:340-381 | the loop is the recursive walk over the answers it got, asks one ancestor after another, each from the resolver last remembered, and sends nothing else |
| `CaaWalk.NamesAsked` | internal/dnsclient/dnsclient.go:340-366 | the first name asked about is the name itself, each next one what follows the first dot of the one before, as many as there are dots and one more |
| `CaaWalk.WalkMeans` | internal/dnsclient/dnsclient.go:340-381 | how the walk ends: an error, the first records met, or everything asked was empty; which name it stopped at, what it says of existence and validation, and never more questions than names or budget |
| `CaaWalk.LookupMeans` | internal/dnsclient/dnsclient.go:340-381 | over the text of the name: without error the records are those of the nearest of the name and its suffixes after each dot that has any, and the name is that one; it calls itself complete exactly when the budget, six by default, reaches one more than the dots; then no records means that none of them has any |
| `CaaWalk.DeadPaidOnce` | internal/dnsclient/dnsclient.go:284-297 | where each resolver always answers or never does, a whole lookup takes one exchange per question and at most one more per further resolver: a dead one is paid for once |
| `Der.ReadLocal` | internal/ctlogs/verify.go:279-335 | a DER element reads the same alone and with anything after it |
| `Der.WrapReads` | internal/ctlogs/verify.go:311-334 | an element marshalled with a recomputed length reads back, whatever follows it |
| `Der.WrapNoLonger` | internal/ctlogs/verify.go:311-334 | marshalling no more content than an element held takes no more bytes than it took |
| `Precertificate.KeepExtensions` | internal/ctlogs/verify.go:305-322 | the inner loop keeps, byte for byte, what the recursive reading keeps, and fails where it fails |
| `Precertificate.PrecertificateTbs` | internal/ctlogs/verify.go:279-335 | the nested loops compute the recursive rebuilding, with its error cases |
| `Precertificate.InsertionInvisible` | internal/ctlogs/verify.go:271-335 | an inserted receipt list or poison, at any position, leaves the output unchanged byte for byte, whatever stands after it |
| `Precertificate.Survives` | internal/ctlogs/verify.go:279-335 | every other field is the same bytes in the same place, the extensions left are those the log signed in order, the output is no longer, re-reads, and is a fixpoint |
| `Precertificate.LogSigned` | internal/ctlogs/verify.go:271-335 | however many receipts and poisons are among the extensions, the output is the certificate without them |
| `Precertificate.RemovedBytes` | internal/ctlogs/verify.go:305-322 | an extension is removed exactly when its content starts with one of two spelled-out identifiers |
| `Precertificate.AcceptedExactly` | internal/ctlogs/verify.go:279-335 | a certificate is rebuilt exactly when it is one element and nothing after it, made of whole fields, of which each one of extensions wraps one list of extensions that name themselves, and nothing after it |
| `PrecertificateBytes.ExtensionsByte` | internal/ctlogs/verify.go:293-296 | a field is taken for the extensions exactly when its first byte is 0x83 or 0xA3 |
| `PrecertificateBytes.RebuiltBytes` | internal/ctlogs/verify.go:271-335 | in plain bytes: any certificate of whole fields is rebuilt to 0x30, its length, the other fields as they were, 0xA3, its length, 0x30, its length, and the extensions but those named 1.3.6.1.4.1.11129.2.4.2 and .3 |
| `SctList.ParseSct` | internal/ctlogs/verify.go:201-228 | the step-by-step slicing is the specified reading |
| `SctList.SctExactly` | internal/ctlogs/verify.go:201-228 | bytes are read as a receipt if and only if they are its serialization |
| `SctList.SplitList` | internal/ctlogs/verify.go:249-269 | the loop is the specified splitting, and refuses what it refuses |
| `SctList.ListExactly` | internal/ctlogs/verify.go:249-269 | bytes split into entries if and only if they are the serialization of that list |
| `SctList.ParseSctList` | internal/certinfo/certinfo.go:1196-1233 | counts the entries and names each log once, or calls the list malformed, exactly as specified |
| `Lists.DistinctMeans` | internal/certinfo/certinfo.go:1196-1233 | each log is named once and none is left out, as each reference of a page is listed once |
| `SctList.ReadersAgree` | internal/certinfo/certinfo.go:1196-1233 | the two readers accept the same lists with the same entries, but for entries of 43 to 46 bytes and versions other than the first |
| `SctList.ShortReceipt` | internal/certinfo/certinfo.go:1196-1233 | a list with one receipt of 43 bytes is counted by one reader and refused by the other |
| `Receipts.SignedBytesUnambiguous` | internal/ctlogs/verify.go:149-161 | the signed bytes determine the timestamp, the entry and the extensions |
| `Receipts.CheckMeans` | internal/ctlogs/verify.go:131-188 | of a receipt that reads, with the signed bytes of section 3.2 of RFC 6962 written out: it is of an unknown log exactly when the list names none, and so on for every status |
| `Receipts.VerifiedExactly` | internal/ctlogs/verify.go:131-188 | a receipt is verified if and only if it is the serialization of one whose log the list names and whose signature, of the algorithm of that key, verifies over those bytes |
| `Receipts.Tally` | internal/scan/receipts.go:35-52 | the list is named and each receipt counted once, in its own column |
| `Receipts.ColumnsMean` | internal/scan/receipts.go:35-75 | each column counts, over the receipts inside the certificate and of the handshake, what its name says of the bytes and the listed logs, and together they count every receipt |
| `Receipts.TransparencyFor` | internal/scan/receipts.go:62-75 | the facts of one scan, with the distinct logs, the list's version and date and what is passed on, and the verdict are the specified ones; nothing is checked without a certificate or a list that verified |
| `Receipts.VerdictSound` | internal/scan/receipts.go:78-81 | with no embedded list, or one the counter could read, the verdict is exactly that there are receipts and all verified |
| `Receipts.VerdictVouches` | internal/scan/receipts.go:62-81 | where the certificate has no list or one that can be counted, the verdict is that there are receipts and a listed log signed every one of them, those inside for the certificate before them and those of the handshake for it as sent |
| `Receipts.VerdictUncounted` | internal/scan/receipts.go:62-81 | with an embedded list the counter cannot read not every receipt verified, and yet the verdict is that as many did as the handshake carried |
| `Receipts.VerdictExact` | internal/scan/receipts.go:62-81 | of one scan the verdict is wrong exactly where the certificate's list was not counted and as many receipts verified as the handshake carried, at least one |
| `Receipts.VerdictTrusted` | internal/scan/receipts.go:78-81 | the verdict means what it says, whatever the handshake carries, if and only if the certificate has no list or one the counter can read |
| `Receipts.MalformedListUnnoticed` | internal/scan/receipts.go:62-81 | one such scan: an embedded list that is no list and one handshake receipt that verifies |
| `Receipts.BadSignatureUnnoticed` | internal/scan/receipts.go:62-81 | one scan where the only handshake receipt has a bad signature and everything is reported verified |
| `Roca.Reachable` | internal/certinfo/roca.go:76-85 | the orbit loop ends, and fills exactly the remainders that powers of 65537 leave |
| `Roca.BuildReachable` | internal/certinfo/roca.go:76-85 | one such set for each listed prime, in their order |
| `Roca.Fingerprint` | internal/certinfo/roca.go:88-97 | holds exactly for numbers of at least 256 bits that leave, for each listed prime, a remainder some power of 65537 leaves |
| `Roca.RsaLibKeyMarked` | internal/certinfo/roca.go:7-15 | the product of any two primes of the library's shape is marked, whatever M those primes divide, and whatever the exponents |
| `Roca.CongruentMarked` | internal/certinfo/roca.go:7-15 | so is every number congruent to a power of 65537 modulo such an M |
| `Roca.MarkNotSufficient` | internal/certinfo/roca.go:26-27 | the mark is necessary, not sufficient: one number that is marked and congruent to no power modulo any such M |
| `RocaOrders.AllOrders` | internal/certinfo/roca.go:60-68 | the order of 65537 modulo each listed prime: it comes back to one after so many steps and not before |
| `RocaOdds.ReachedCount` | internal/certinfo/roca.go:60-85 | the remainders that powers reach are as many as the order |
| `RocaOdds.MarkedByClass` | internal/certinfo/roca.go:88-97 | whether a number is marked is decided by its residue modulo the product of the primes |
| `RocaOdds.MarkedOdds` | internal/certinfo/roca.go:26-30 | the marked residues modulo that product, counted by the Chinese remainder theorem; they are more than one in 2^31 |
| `MarkupScan.FirstWins` | internal/markup/scan.go:182-189 | an attribute that is repeated keeps its first value |
| `Scanner.EqualFoldAscii` | internal/markup/scan.go:283-290 | equality up to ASCII case |
| `Scanner.FindFold` | internal/markup/scan.go:267-281 | the loop finds the first occurrence in any case, or none |
| `Scanner.Scanner.SkipToEndTag` | internal/markup/scan.go:119-140 | the cursor lands past the first closing tag whose name ends there, in any case, or at the end |
| `Scanner.Scanner.ReadTag` | internal/markup/scan.go:143-191 | reads the specified tag, with the cursor inside the input and past what was read |
| `Scanner.Scanner.ReadAttrList` | internal/markup/scan.go:152-190 | the attribute loop ends on every input, a byte it cannot use included, and keeps the first attribute of each name |
| `Scanner.Scanner.ReadAttr` | internal/markup/scan.go:194-238 | reads the specified name and value, and moves the cursor whenever it reads a name |
| `Scanner.Scanner.Next` | internal/markup/scan.go:47-96 | a reported tag moves the cursor by at least two bytes and is the first of those ahead; no tag means none are left |
| `Scanner.Scanner.All` | internal/markup/markup.go:230-237 | calling until there are no more ends on every input and gives every tag in order |
| `NotMarkup.ReachesLocal` | internal/markup/scan.go:47-96 | what was reported before a point does not depend on what follows it |
| `NotMarkup.CommentSkipped` | internal/markup/scan.go:57-63 | wherever the scan meets a comment, the tags reported are those before it and those of the text after it, whatever its body |
| `NotMarkup.OpenCommentEndsPage` | internal/markup/scan.go:58-63 | a comment that is not closed ends the page |
| `NotMarkup.RawTextSkipped` | internal/markup/scan.go:86-92 | wherever the scan meets a raw-text element, it reports that tag, nothing of its body, and goes on after its closing tag |
| `NotMarkup.OpenRawEndsPage` | internal/markup/scan.go:114-140 | a raw-text element that is not closed ends the page |
| `TagText.TagReadBack` | internal/markup/scan.go:143-238 | a tag written out, its values bare, in either quotes or not given, with any blanks between its parts and closing itself or not, reads back, to its ">" and no further, with the first attribute of each name |
| `PageText.PageReadBack` | internal/markup/scan.go:20-140 | of any page written as words, stray "<", comments, declarations, end tags, tags and raw elements, the nine of them by name, the tags read are those that were written, in order, and no others |
| `Addresses.SplitScheme` | internal/markup/markup.go:435-450 | the loop finds the scheme of an address, or that it has none |
| `Addresses.OnlyTheHost` | internal/markup/markup.go:456-506 | whatever the credentials, path, query and fragment, an authority is reduced to what its host and port alone give |
| `Addresses.Authority` | internal/markup/markup.go:464-506 | a host that is kept is bounded and holds no control character |
| `Addresses.BackslashIsSlash` | internal/markup/markup.go:392-433 | every address leads where it leads with its backslashes turned into slashes |
| `Addresses.BreaksIgnored` | internal/markup/markup.go:398-404 | a tab or line break anywhere in an address changes nothing about where it leads |
| `UrlStandard.ResolveLed` | internal/markup/markup.go:402-433 | where an address leads is decided before its authority is reduced: nowhere, to the base, or to an authority |
| `UrlStandard.StandardExact` | internal/markup/markup.go:392-433 | the code and the URL Standard's state machine lead every address to the same place, for every base, if and only if it is not empty and not the base's own scheme before a single slash |
| `UrlStandard.OneSlashParts` | internal/markup/markup.go:392-433 | one such address: relative in the Standard, a host to the code |
| `AddressText.AddressReadBack` | internal/markup/markup.go:392-506 | an address written out, with http, https or no scheme, credentials, a name or a bracketed one, a port and a path, leads to the name it has, folded, over its scheme or the base's, and on another port exactly when its port is neither empty nor 80 on http or 443 on https |
| `AddressText.PaddingIgnored` | internal/markup/markup.go:398-404 | spaces and control characters around an address change nothing about where it leads |
| `AddressText.ReferenceMeans` | internal/markup/markup.go:377-390 | a reference to such an address is third-party exactly unless its host is the page's, over TLS, on its own port, and blocked exactly if of a kind that is and over plaintext |
| `References.Facts.Add` | internal/markup/markup.go:205-224 | after any additions the total, the list and the flag are those of the references added |
| `References.ListMeans` | internal/markup/markup.go:160-174 | the list has at most 32 entries, none twice, only reportable ones, and all of them exactly when it does not say there are more; the total counts each reportable reference as often as it was made |
| `References.EarlierStay` | internal/markup/markup.go:205-224 | what a page refers to later takes no place in the list from what it referred to before |
| `References.FirstBaseDecides` | internal/markup/markup.go:268-280 | everything before the first base element with an address leads against the page's own origin, and everything after it against where that leads, whatever base elements follow |
| `References.Page.SetBase` | internal/markup/markup.go:268-280 | only the first base element with an address counts, wherever it leads |
| `References.Page.Read` | internal/markup/markup.go:205-240 | over any page the loop leaves in the facts exactly the references the page makes, each against the base in force where it stands |
| `References.OwnThingsUnreported` | internal/markup/markup.go:205-214 | a page whose every address is relative leaves nothing in the facts, however many it uses and whatever base elements it has |
| `Tallies.RestoredSound` | internal/httpapi/counters.go:367-440 | what is read back from a file adds up exactly when what is taken from the file does |
| `Tallies.RunSound` | internal/httpapi/counters.go:220-303 | every run keeps total = strong + weak + insecure + ungraded, today no more than the total, and only known keys |
| `Tallies.RunRefuses` | internal/httpapi/counters.go:291-303 | each code's figure grows by the refusals of that code and no others |
| `Tallies.KeysAppear` | internal/httpapi/counters.go:138-142 | a check has a block only once a scan of it was counted |
| `Tallies.ReadingMeans` | internal/httpapi/counters.go:313-347 | what is read after any run: each scan in one column and in the total, the day's scans for the day, the top figures those of the TLS check, and each block under its rule set |
| `Tallies.RestoreRoundTrip` | internal/httpapi/counters.go:367-440 | figures saved and read back are the same figures on the same day, and on another day the same but for the daily ones, which are zero |
| `Tallies.OldFile` | internal/httpapi/counters.go:393-410 | a file of before there were blocks gives the TLS check its figures and makes no other block |
| `Tallies.RefreshesApart` | internal/httpapi/counters.go:349-365 | however often they are asked for, published figures are taken anew at most once a minute |
| `Tallies.NeverStale` | internal/httpapi/counters.go:349-365 | and whoever asks is given figures less than a minute old |
| `Counters.Counters.Record` | internal/httpapi/counters.go:220-258 | the new figures are those specified, written only to maps the counters own |
| `Counters.Counters.Refuse` | internal/httpapi/counters.go:291-303 | a known code's figure grows by one, written only to a map the counters own; an unknown code changes nothing |
| `Counters.Counters.Read` | internal/httpapi/counters.go:313-347 | the figures as they are today, in maps nothing else holds |
| `Counters.Counters.ReadPublic` | internal/httpapi/counters.go:354-365 | within an interval the same snapshot, else a new one |
| `Counters.Counters.Restore` | internal/httpapi/counters.go:367-440 | the new figures are those specified, in new maps |
| `Counters.CountAfter` | internal/httpapi/counters.go:213-303 | whatever is counted after a snapshot was given out, the snapshot and the published figures stay as they were |
| `DistinguishedName.AttributeValue` | internal/certinfo/name.go:146-175 | the loop prints a value with exactly the characters escaped that RFC 4514 names, U+0000 apart, spaces at the ends and a hash at the front |
| `DistinguishedName.PrintName` | internal/certinfo/name.go:81-113 | the attributes no field holds come first and so print last; components in reverse, joined by commas, their attributes by plus signs |
| `DistinguishedName.ValueReadBack` | internal/certinfo/name.go:136-175 | a reader of all that is printed takes every value back as it was: text never as the hexadecimal form, nor the other way |
| `DistinguishedName.GrammarTakes` | internal/certinfo/name.go:136-175 | a reader of the grammar of RFC 4514 takes printed text back if and only if it holds no U+0000, and printed bytes if and only if there are any; it refuses the rest and takes no value for another |
| `DistinguishedName.NulRefused` | internal/certinfo/name.go:138-175 | text of one U+0000 is printed as it is, and refused by that reader |
| `DistinguishedName.NamesDistinct` | internal/certinfo/name.go:129-134 | no two attribute types are printed under one name |
| `AttributeNames.DirectoryNames` | internal/certinfo/name.go:44-73 | the name each attribute of X.520 is printed under, by its identifier as numbers |
| `AttributeNames.OtherNames` | internal/certinfo/name.go:58-73 | and the names of the other origins |
| `AttributeNames.FieldsByName` | internal/certinfo/name.go:115-127 | the attributes a parsed name keeps in its fields are exactly those printed under nine names |
| `DistinguishedName.NameReadBack` | internal/certinfo/name.go:81-113 | splitting at unescaped separators and unescaping recovers every attribute and value |
| `DistinguishedName.Unambiguous` | internal/certinfo/name.go:81-113 | two names printed alike are the same name |

## Left out

- Network and process code: HTTP handlers, dialling, sockets, TLS setup, flags, file writes, reloading, reading of resolv.conf and the registry; an exchange with a resolver is one step with an outcome.
- Cryptography and X.509: hashes, HMAC and signature checks are functions the models are given; the seal of the access file is ideal; replacing that file is one step.
- Rounding: tokens are exact reals where the code has float64. `time.Duration` overflow and zero `time.Time` values are not modelled, except that a cleared time counts as long ago.
- The two HTTP limiters read the clock before they take their lock; here a call is one step of one clock. The gate reads it under its lock, twice, and is modelled so.
- Unicode: text over bytes or characters with ASCII case; the markup scanner's lower-casing and reference decoding are any functions, of which only that lower-casing leaves no name empty is used. Invalid UTF-8 is not modelled in printed names, nor the cut of a host in the middle of a character.
- uint64 wrap-around of the counters: they are unbounded numbers.
- A failing random source, except where a sign-in gives up because of one; `GeneratePassword`.
- `clientKey` and proxy trust; `resolverList`; `skipName`; the parsers of single record types, which are a parameter of `ParseAnswers`.
- `check` in ctlogs as a verdict per receipt only: key types, log states and the text of a receipt are not kept, and log identifiers are bytes rather than hexadecimal.
- The URL Standard's parsing of a host (punycode, percent-encoding, numeric addresses, ports that are refused) is not modelled; the two are compared up to the authority.
- The reader of RFC 4514's grammar does not put escaped octets of one longer character together; it refuses them.
- `ToRDNSequence`: a name's parsed fields come as the sequence it gives, which has no empty component.
- `examine` in markup, as the table from elements to kinds of reference; reading a page through a limit.
- Goroutine scheduling inside one critical section of the gate; cancellation is a request that gives up while it waits.
- The rule sets that judge a host, the wording of reports, and the command-line programs.
