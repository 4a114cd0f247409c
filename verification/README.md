# Verification of the certificate, concurrency and arithmetic cores

A Dafny 4.11 model of the parts of the vendored BoringSSL tree (`ios/boringssl`) that the rest of the
repository rests on, with proofs that the fast, byte-level or lock-free form does what its simple meaning
says. `dafny verify dfyconfig.toml` checks the whole project.

| Files | What they model |
|---|---|
| `DnsNames`, `IpUtil`, `GeneralNames`, `NameConstraints`, `NameMeanings` | Name constraints (section 4.2.1.10 of RFC 5280): DNS suffix tests against label lists, wildcards, netmasks as integer intervals, parsing of general names and subtrees, the check of a certificate |
| `Refcount`, `ExData`, `ThreadLocal` | Shared state as step systems over any number of threads: the saturating reference count, the list that is walked without its lock, thread-local destructors |
| `Certificates`, `Ocsp`, `Crl` | Revocation decisions (section 4.2.2 of RFC 6960, sections 5.3 and 6.3.3 of RFC 5280) |
| `NamePrinter`, `NameReader`, `TimeValues`, `Calendar`, `BitStrings`, `Octets`, `Input` | Printers and parsers that undo each other: RFC 2253 names, UTCTime and GeneralizedTime with the calendar behind them, BIT STRING values, the order on byte strings |
| `ConstantTime`, `CarryChains`, `ModExp`, `Sorting`, `CertificatePolicies`, `CpuInfo` | Masks, limb chains, square-and-multiply, repeated policy OIDs, the cpuinfo tokenizer |
| `AsciiText`, `ObjectIdentifiers`, `Quotients`, `Options` | Text helpers, OIDs by their arcs, division and powers of two, optional values |

Loops and objects of the source are methods and classes here, proved against specifications that do not
follow their control flow; the lemmas then prove the promised laws of those specifications. In the three
step systems one action is one atomic access of the source, and the theorems range over every run.

What is assumed, stated once:

- The string helpers that the certificate code calls (`IsEqualNoCase`, `EndsWithNoCase`, `SplitString`,
  `HexEncode`) have their usual ASCII meaning, stated letter by letter in `AsciiText.EqualNoCaseMeans` and
  `AsciiText.EndsWithNoCaseMeans`; hexadecimal digits are upper case.
- Routines whose source is not part of this model are parameters, and the theorems hold for every choice
  of them: hashes, signature checks, certificate parsing, name comparison (`VerifyNameInSubtree`,
  `NormalizeName`), `CheckRevocationDateValid`, e-mail extraction, decoding of UniversalString and
  BMPString, the text of an OID. Of the last, the name round trip asks that it has digits and dots only.
- Inputs of the revocation, policy and name-constraint code arrive framed: where DER reading can fail, the
  datatypes have a case for it.
- Atomic operations are sequentially ordered single steps, mutexes exclude each other, and a weak
  compare-and-swap may fail at any time.
- Reference count: a caller increments only while it holds a reference and releases only what it holds.
  Thread-local values: one destructor per index, and a thread sets an index only while nothing is stored
  there.

Where the code does not meet a promise, an input shows it and the exact condition is proved:

- Wildcards. A permitted wildcard name may stand for hosts that are not permitted. `DnsNames.WildcardSoundExactly`
  gives the condition for every base; the two ways to fail are a permitted subtree that only spells the wildcard
  (`DnsNames.WildcardSubtreeIsUnsound`) and, for the bases "" and "." alone, an excluded subtree one label above
  (`DnsNames.EmptyBaseIsUnsound`).
- Subtree containment fails to be transitive for one pair of constraints (`DnsNames.TransitiveExactly`).
- Mailbox constraints keep trailing dots that dNSName constraints drop: `NameConstraints.FinalDotEscapes`,
  `NameConstraints.Rfc822DomainAgreesExactly`.
- The limit on name constraint checks does not bound all of them by 2^20: `NameConstraints.WorkIsBounded` says what
  it bounds, `SubjectDoublesTheWork`, `UncountedNamesBoundNothing` and `MailboxesAreNotCounted` what it does not, and
  `GuardBoundsWorkExactly` for which certificates the limit holds.
- The assertion at `ios/boringssl/crypto/ex_data.cc:217` allows one entry fewer than the guard at line 152 lets in:
  `ExData.CountBoundIsReached`, `ExData.AssertionHoldsExactly`.
- UTCTime encodings are ordered as their times are within one century only: `TimeValues.UtcEncodingBreaksOrder`,
  `TimeValues.UtcEncodingOrderExactly`.
- Empty RDNs at the end of a name leave no trace in its printed form: `NameReader.EmptyLastRdnVanishes`,
  `NameReader.NameRoundTrip`. The DER parser refuses empty RDNs.
- `mod_exp` sets its result to one before it reads base and modulus: `ModExp.OverBaseFails`, `ModExp.ResidueExactly`.

## Model

| member | source | states |
|---|---|---|
| `DnsNames.FullMatchIsLabelSuffix` | ios/boringssl/pki/name_constraints.cc:57-113 | For all strings: the byte-level full match holds exactly when the constraint is empty or its label list is a case-insensitive suffix of the name's label list, and a proper one after a leading dot |
| `DnsNames.MatchOnLabelLists` | ios/boringssl/pki/name_constraints.cc:46-112 | The same said of two lists of non-empty labels in any case, each printed with or without a trailing dot |
| `DnsNames.TransitiveExactly` | ios/boringssl/pki/name_constraints.cc:57-113 | Being inside a subtree is transitive for every pair of constraints except the one pair that is named: the empty constraint and the constraint "." |
| `DnsNames.PartialMatchByLabels` | ios/boringssl/pki/name_constraints.cc:72-90 | What a partial match of a wildcard adds to the full match: the constraint is exactly one label above the wildcard's base |
| `DnsNames.PartialMatchIsSomeExpansion` | ios/boringssl/pki/name_constraints.cc:40-44 | A wildcard name partially matches a constraint exactly when some single-label expansion of it falls within the constraint |
| `DnsNames.FullMatchCoversExpansions` | ios/boringssl/pki/name_constraints.cc:91-112 | A full match of a wildcard covers all its expansions, exactly unless the constraint spells that wildcard itself |
| `DnsNames.PartialVersusFull` | ios/boringssl/pki/name_constraints.cc:57-113 | The partial test accepts whatever the full test accepts, and differs from it on wildcard names alone |
| `DnsNames.WildcardSoundExactly` | ios/boringssl/pki/name_constraints.cc:635-661 | For every base: a permitted wildcard name is sound, all its expansions being permitted, exactly when a permitted subtree matches it without spelling it (if DNS names are constrained) and no excluded subtree is one label above the base |
| `DnsNames.PartialTestCoversBases` | ios/boringssl/pki/name_constraints.cc:72-90 | The partial test rules the second obstacle out for every base but "" and "." |
| `DnsNames.WildcardSound` | ios/boringssl/pki/name_constraints.cc:635-661 | As a consequence: for any other base, if no permitted subtree spells the wildcard, every expansion of a permitted wildcard is permitted |
| `DnsNames.EmptyBaseIsUnsound` | ios/boringssl/pki/name_constraints.cc:72-74 | A concrete failure for the base "": `*.` is permitted beside the excluded host `a`, and `a.` is not |
| `DnsNames.WildcardSubtreeIsUnsound` | ios/boringssl/pki/name_constraints.cc:635-661 | A concrete failure for the first obstacle: subtrees that permit `*.b` and refuse `a.b` |
| `DnsNames.WildcardPermittedExactly` | ios/boringssl/pki/name_constraints.cc:635-661 | With star-free subtrees, a wildcard name is permitted exactly when every host it can stand for is |
| `IpUtil.IsValidNetmask` | ios/boringssl/pki/ip_util.cc:9-34 | True exactly for 4 or 16 bytes that are k one bits and then zero bits, for some k |
| `IpUtil.IPAddressMatchesWithNetmask` | ios/boringssl/pki/ip_util.cc:36-47 | True exactly when all three lengths agree and the addresses agree on every byte under the mask |
| `IpUtil.MaskBytes` | ios/boringssl/pki/ip_util.cc:14-33 | The byte-wise test (0xff bytes, one byte whose complement is of the form 2^t - 1, zero bytes) is the bit-prefix form |
| `IpUtil.MatchIsEqualQuotient` | ios/boringssl/pki/ip_util.cc:36-47 | Under a prefix mask, matching is equality of the big-endian integers divided by 2^(bits-k) |
| `IpUtil.RangeIsAlignedInterval` | ios/boringssl/pki/ip_util.cc:36-47 | The addresses a range matches are one interval of 2^(bits-k) integers, aligned to its size |
| `IpUtil.RangesNestOrAreDisjoint` | ios/boringssl/pki/ip_util.cc:36-47 | Of two ranges over one address size with prefixes k and l, the longer is inside the other or they share no address |
| `IpUtil.ValueInjective` | ios/boringssl/pki/ip_util.cc:36-47 | Byte strings of one length are determined by their big-endian value |
| `GeneralNames.ParseGeneralName` | ios/boringssl/pki/general_names.cc:98-217 | Accepts exactly the inputs that spell a name, pushes that one name, keeps bitfield and lists in agreement, and changes nothing on refusal |
| `GeneralNames.PushKeepsValid` | ios/boringssl/pki/general_names.cc:109-216 | Pushing an acceptable name keeps the agreement of bitfield and lists, address lengths and contiguous masks |
| `GeneralNames.SpellsOnce` | ios/boringssl/pki/general_names.cc:109-213 | An input spells at most one name, so reading is deterministic on the specification side |
| `GeneralNames.FramedIsRead` | ios/boringssl/pki/general_names.cc:109-213 | Framing a name by its tag and reading it undo each other, exactly for contents that spell it: ASCII text, an address of 4 or 16 bytes, an address and a prefix mask |
| `NameConstraints.ParseGeneralSubtrees` | ios/boringssl/pki/name_constraints.cc:121-174 | Accepts exactly the non-empty lists of readable subtrees without minimum and maximum; the result is those names in order |
| `NameConstraints.NameConstraints.Parse` | ios/boringssl/pki/name_constraints.cc:303-363 | Accepts exactly the readable extensions; the stored subtrees are the listed ones and the constrained types those present, cut to the supported ones unless critical |
| `NameConstraints.ReadableMeans` | ios/boringssl/pki/name_constraints.cc:121-174 | An extension is readable exactly when one of its lists is present, neither is empty, nothing follows them, and every subtree spells a name with no distances behind it |
| `NameConstraints.NameConstraints.IsPermittedRfc822Name` | ios/boringssl/pki/name_constraints.cc:529-633 | Equals the declarative meaning: a readable mailbox, outside every excluded subtree and inside some permitted one if the type is constrained |
| `NameConstraints.NameConstraints.IsPermittedDNSName` | ios/boringssl/pki/name_constraints.cc:635-661 | Equals the declarative meaning with partial matching against excluded and full matching against permitted subtrees |
| `NameConstraints.NameConstraints.IsPermittedDirectoryName` | ios/boringssl/pki/name_constraints.cc:663-684 | Equals the declarative meaning over the name comparison it is given |
| `NameConstraints.NameConstraints.IsPermittedIP` | ios/boringssl/pki/name_constraints.cc:686-708 | Equals the declarative meaning over masked comparison |
| `NameConstraints.NameConstraints.IsPermittedCert` | ios/boringssl/pki/name_constraints.cc:365-527 | Appends exactly the verdict: none, too many checks by the true product, or not permitted; a ghost counter of comparisons stays between the fewest and the most there can be |
| `NameConstraints.PermittedIpByIntervals` | ios/boringssl/pki/name_constraints.cc:686-708 | An address is permitted exactly when it lies in no excluded interval and, if constrained, in some permitted interval |
| `NameConstraints.WrappedProductGuard` | ios/boringssl/pki/name_constraints.cc:400-406 | The division test on the wrapped 64-bit product fires exactly when the true product exceeds 2^20 |
| `NameConstraints.WorkIsBounded` | ios/boringssl/pki/name_constraints.cc:374-406 | What passing the guard bounds: 2^20 comparisons for the subjectAltName; for the subject one per directoryName subtree, at most 2^20 more if any name was counted; nothing for e-mail addresses of a subject |
| `NameConstraints.SubjectDoublesTheWork` | ios/boringssl/pki/name_constraints.cc:382-406 | 2^21 comparisons are reached by a permitted certificate |
| `NameConstraints.UncountedNamesBoundNothing` | ios/boringssl/pki/name_constraints.cc:382-406 | Where the guard counts no name but a subject is checked, it alone may cost any number |
| `NameConstraints.MailboxesAreNotCounted` | ios/boringssl/pki/name_constraints.cc:395-399 | Without subjectAltName, one address may cost any number, as mailbox subtrees are not counted |
| `NameConstraints.GuardBoundsWorkExactly` | ios/boringssl/pki/name_constraints.cc:374-406 | Passing the guard means at most 2^20 comparisons in all, whatever the subtrees and the other names, exactly for an empty subject with a subjectAltName |
| `NameConstraints.OrderPlaysNoPart` | ios/boringssl/pki/name_constraints.cc:365-527 | The verdict is the same under any reordering of subtrees and of names |
| `NameConstraints.ExcludedSubtreesOnlyReject` | ios/boringssl/pki/name_constraints.cc:365-527 | Adding excluded subtrees never turns a rejected certificate into an accepted one |
| `NameConstraints.PermittedSubtreesOnlyAdmit` | ios/boringssl/pki/name_constraints.cc:365-527 | Adding permitted subtrees of constrained types never makes an accepted certificate fail, other than by the work limit |
| `NameConstraints.Rfc822DomainAgreesExactly` | ios/boringssl/pki/name_constraints.cc:260-267 | A leading-dot mailbox constraint means for the domain what the same dNSName constraint means, exactly unless the domain falls in the subtree and just one of the two ends in a dot; with its own condition for the constraint "." |
| `NameMeanings.CharsMean` | ios/boringssl/pki/name_constraints.cc:176-215 | The characters of a local part are the visible ones without the specials, those of a host letters, digits, hyphens and dots |
| `NameMeanings.MailboxMatchMeans` | ios/boringssl/pki/name_constraints.cc:249-273 | Over written-out subtrees: `l@h` holds the mailboxes `p@q` where q is h letter by letter up to ASCII case and p is l, up to case only if asked for; `h` holds all at that host; `.d` all whose host ends in it |
| `NameMeanings.UnreadableMeans` | ios/boringssl/pki/name_constraints.cc:222-247 | A mailbox subtree can be read exactly when it is one of these three, well written |
| `NameMeanings.MailboxAllowedExactly` | ios/boringssl/pki/name_constraints.cc:529-633 | A mailbox is permitted exactly when it is a well-formed `p@q` that lies in no excluded subtree (an unreadable one holds everything) and, if constrained, in some permitted one, where local parts are compared with regard to case |
| `NameMeanings.HostAllowedByLabels` | ios/boringssl/pki/name_constraints.cc:635-661 | A host name that is no wildcard is permitted exactly when its labels lie in no excluded and, if constrained, in some permitted subtree |
| `NameMeanings.AcceptedWithSanExactly` | ios/boringssl/pki/name_constraints.cc:365-527 | A certificate with a subjectAltName passes exactly when the counts multiply to at most 1048576, no present type is constrained and unsupported, and each mailbox (excluded local parts with regard to case), host, address, directory name and non-empty subject is allowed |
| `NameMeanings.AcceptedWithoutSanExactly` | ios/boringssl/pki/name_constraints.cc:365-527 | Without one, exactly when the subject is allowed and, if mailboxes are constrained, its e-mail addresses are extracted and allowed, excluded local parts without regard to case |
| `AsciiText.EqualNoCaseMeans` | ios/boringssl/pki/name_constraints.cc:253-273 | Equality without case is equality letter by letter up to the two cases of ASCII letters |
| `AsciiText.EndsWithNoCaseMeans` | ios/boringssl/pki/name_constraints.cc:260-267 | Ending without case is that equality for as many last letters |
| `NameConstraints.FinalDotEscapes` | ios/boringssl/pki/name_constraints.cc:260-267 | A concrete failure: the mailbox domain `a.b.` escapes the excluded domain `.b` |
| `NameConstraints.UnreadableConstraintFailsSafe` | ios/boringssl/pki/name_constraints.cc:222-247 | A constraint with too many parts, a bad local part or a bad domain rejects every mailbox if excluded, and could be missing if permitted |
| `Refcount.CountIsOutstandingOrSaturated` | ios/boringssl/crypto/refcount.cc:30-59 | Over every interleaving of any number of threads, with spurious failures: the count is the number of outstanding references or is saturated |
| `Refcount.StepKeepsInv` | ios/boringssl/crypto/refcount.cc:30-59 | Every atomic access of either loop keeps that invariant |
| `Refcount.SaturationIsForever` | ios/boringssl/crypto/refcount.cc:34-51 | A saturated count never moves again |
| `Refcount.ExactBelowTheLimit` | ios/boringssl/crypto/refcount.cc:30-59 | While fewer than the maximum are outstanding, the count is exact |
| `Refcount.AbortIsUnreachable` | ios/boringssl/crypto/refcount.cc:47-48 | If callers take and release only references they hold, no interleaving reaches the abort |
| `Refcount.ZeroMeansUnreferenced` | ios/boringssl/crypto/refcount.cc:52-56 | Once a dec has returned one, nothing is outstanding and no step is enabled |
| `Refcount.ExactlyOneZero` | ios/boringssl/crypto/refcount.cc:42-59 | When all references are released, exactly one dec has returned one, or none if the count ever saturated |
| `Refcount.IncMeans` | ios/boringssl/crypto/refcount.cc:30-40 | A returning inc has gained one reference, and the count one unless it is 4294967295; until then it changes nothing and tries with the count just read |
| `Refcount.DecMeans` | ios/boringssl/crypto/refcount.cc:42-59 | A returning dec has taken one from an unsaturated count and returned one exactly if that left zero; it aborts exactly on reading zero |
| `ExData.WalksAreSafe` | ios/boringssl/crypto/ex_data.cc:208-229 | In every interleaving the cell a lock-free reader reads next was linked before it was counted and counted before the reader loaded the count, holds the entry of that number, and is not the one being written |
| `ExData.LinkedCellsAreFinal` | ios/boringssl/crypto/ex_data.cc:157-168 | A cell in front of a linked entry keeps its contents for the rest of every run |
| `ExData.FinishedWalk` | ios/boringssl/crypto/ex_data.cc:222-229 | A finished walk has called the free functions of the first n entries in order, entry i with index i + num_reserved |
| `ExData.CallsOfFinishedWalk` | ios/boringssl/crypto/ex_data.cc:215-229 | In every interleaving: each call of a finished walk is for some j below n whose entry has a free function, with the index j + num_reserved; each such j has its call; the indices increase, so no call comes twice; and an index that was returned to the registrar of the entry is the one the call is given |
| `ExData.RegistrationEnds` | ios/boringssl/crypto/ex_data.cc:135-170 | From the allocation of an entry, through any interleaving up to the release of the lock: the registrar is handed the index of its own entry, with its own free function, or is refused and the entry is in no list |
| `ExData.TargetsMean` | ios/boringssl/crypto/ex_data.cc:157-168 | No step changes a cell other than the one its owner was about to write, and a reader goes on by the cell it holds |
| `ExData.WalkMissesNothing` | ios/boringssl/crypto/ex_data.cc:215-229 | Those n entries include every entry that was counted before the reader loaded the count |
| `ExData.IndicesAreConsecutive` | ios/boringssl/crypto/ex_data.cc:148-170 | Returned indices count up from num_reserved and fit an int; num_funcs is at most INT_MAX - num_reserved + 1 |
| `ExData.CountBoundIsReached` | ios/boringssl/crypto/ex_data.cc:148-217 | That bound is reached: a run exists in which a reader loads one more than the assertion in the traversal allows |
| `ExData.AssertionHoldsExactly` | ios/boringssl/crypto/ex_data.cc:215-217 | The assertion holds exactly until the index INT_MAX is handed out, or its entry has just been counted |
| `ExData.StepKeepsInv` | ios/boringssl/crypto/ex_data.cc:135-229 | Every step of registrars and readers keeps the list, lock, index, time and reader invariants |
| `ExData.Slots.Set` | ios/boringssl/crypto/ex_data.cc:173-197 | Set then get returns the value at that index and leaves the others; a failed call changes no visible slot |
| `ThreadLocal.ExitDestroysEverythingOnce` | ios/boringssl/crypto/thread_pthread.cc:69-149 | In every interleaving with any failures inside set, a thread that has exited has destroyed each value it was given exactly once, with its own destructor |
| `ThreadLocal.ExitDestroysWhatWasHanded` | ios/boringssl/crypto/thread_pthread.cc:69-149 | The same stated of the actions of the run: what was destroyed is what the set calls of the run passed, with the destructor of their index |
| `ThreadLocal.ExitCallsInOrder` | ios/boringssl/crypto/thread_pthread.cc:81-87 | While a thread exits, whatever the others do, it calls the copied destructors in the order of their indices on the stored values |
| `ThreadLocal.SetFailsExactly` | ios/boringssl/crypto/thread_pthread.cc:115-143 | A step of set fails exactly when the key is missing, the array cannot be allocated, or the lock cannot be taken |
| `ThreadLocal.LiveThreadKeepsTheRest` | ios/boringssl/crypto/thread_pthread.cc:115-149 | Between calls, what a thread was given is what failed sets destroyed plus what is stored; the same if the exit-time lock failed |
| `ThreadLocal.SetStoresOrDestroys` | ios/boringssl/crypto/thread_pthread.cc:115-149 | Over a whole call, whatever other threads do meanwhile: the value is stored and nothing destroyed, or its destructor is called once and every slot is as it was at the start |
| `ThreadLocal.CopyExcludesWrite` | ios/boringssl/crypto/thread_pthread.cc:75-79 | While a thread can copy the destructor table, no other thread can write or copy it |
| `ThreadLocal.StepKeepsInv` | ios/boringssl/crypto/thread_pthread.cc:69-149 | Every step keeps the balance of values, the coverage of stored values by recorded destructors, and the mutex discipline |
| `Ocsp.GetRevocationStatusForCert` | ios/boringssl/pki/ocsp.cc:801-864 | The one-pass loop yields the strictest status and best match of the list as a whole, or UNKNOWN at the first bad entry |
| `Ocsp.OrderDoesNotMatter` | ios/boringssl/pki/ocsp.cc:801-864 | Status and details do not depend on the order of entries (details: when no entry is bad) |
| `Ocsp.OutcomeOfConcatenation` | ios/boringssl/pki/ocsp.cc:853-860 | The result over two lists is the precedence-wise combination of the results over each |
| `Ocsp.BadEntryPoisons` | ios/boringssl/pki/ocsp.cc:817-832 | One bad entry anywhere forces UNKNOWN |
| `Ocsp.CurrentEntryMeans` | ios/boringssl/pki/ocsp.cc:817-860 | A current entry comes from a single response that names the certificate by serial number, issuer name hash and issuer key hash, has that status and a valid date and no unhandled critical extension, and conversely |
| `Ocsp.CheckCertIDMatchesCertificate` | ios/boringssl/pki/ocsp.cc:548-586 | True exactly for SHA-1, 256, 384 or 512, the hash of the issuer name, the hash of the issuer key and the serial number of the certificate |
| `Ocsp.CheckResponderIDMatchesCertificate` | ios/boringssl/pki/ocsp.cc:612-638 | True exactly when the name, or the SHA-1 hash of the key, is the one the responder ID gives |
| `Ocsp.BadMeans` | ios/boringssl/pki/ocsp.cc:817-832 | An entry is bad exactly when it or its CertID is not framed, its extensions are unreadable, or one is critical and not for certificate timestamps |
| `Ocsp.StatusMeans` | ios/boringssl/pki/ocsp.cc:866-964 | For a usable, authentic response: REVOKED exactly when every entry is legible and one that names the certificate by serial number and both hashes, and is in date, says so; GOOD exactly when every entry is legible, one such entry exists, and all such say GOOD |
| `Ocsp.DetailsMean` | ios/boringssl/pki/ocsp.cc:842-860 | Over legible entries the details are PROVIDED, INVALID_DATE or NO_MATCHING_RESPONSE as some entry answers, some only concerns the certificate, or none does |
| `Ocsp.AuthenticMeans` | ios/boringssl/pki/ocsp.cc:646-738 | Authentic exactly when some signer, the issuer or an attached certificate that the issuer signed for OCSP signing, is the one the responder ID names, and its key signed the data |
| `Ocsp.OcspOids` | ios/boringssl/pki/extended_key_usage.h:66-69 | The OID of the OCSP signing purpose and of certificate timestamps are the encodings of their arcs |
| `Ocsp.VerifyAuthorizedResponderCert` | ios/boringssl/pki/ocsp.cc:646-674 | True exactly for certificates signed by the issuer that list the OCSP signing purpose |
| `Ocsp.VerifyOCSPResponseSignature` | ios/boringssl/pki/ocsp.cc:687-738 | True exactly when the issuer, or some attached certificate that matches the responder and is authorized, signed |
| `Ocsp.CheckOCSP` | ios/boringssl/pki/ocsp.cc:866-964 | Status and details of the whole check, with the first obstacle named when the entries are not looked at; a status other than UNKNOWN comes from some response with the serial number, both hashes under SHA-1, 256, 384 or 512, that status and a valid date, and the data is signed by the issuer or its delegate |
| `Ocsp.OnlyBackedStatuses` | ios/boringssl/pki/ocsp.cc:866-964 | The status is not UNKNOWN exactly for usable, authentic responses without bad entries whose strictest current entry is not UNKNOWN; it is then carried by a current entry with details PROVIDED, and a GOOD one by all of them |
| `Crl.GetCRLStatusForCert` | ios/boringssl/pki/crl.cc:306-402 | GOOD without a list; UNKNOWN for a list that is not wholly readable, even after a match; otherwise REVOKED exactly when the serial number occurs |
| `Crl.EntryOrderDoesNotMatter` | ios/boringssl/pki/crl.cc:336-401 | The order of entries does not matter |
| `Crl.ContainsExactMatchingName` | ios/boringssl/pki/crl.cc:39-47 | Sorting and merging finds a shared name exactly when there is one |
| `Crl.SetIntersection` | ios/boringssl/pki/crl.cc:43-46 | The merge of sorted lists yields, in order, what occurs in both, as often as it occurs in both |
| `Crl.CheckCRL` | ios/boringssl/pki/crl.cc:407-671 | The status of the whole check, exactly; other than UNKNOWN only if the key of some later certificate signed the CRL bytes, that certificate has the issuer of CRL and target as subject and may sign CRLs, and the target is of the kind the CRL covers; UNKNOWN if no later key signed |
| `Crl.ListedStatusMeans` | ios/boringssl/pki/crl.cc:306-402 | Entry by entry: what makes the list UNKNOWN, and that otherwise the serial number decides |
| `Crl.CrlOids` | ios/boringssl/pki/crl.cc:27 | The OID of the issuing distribution point is the encoding of its arcs |
| `Crl.CheckCrlExtensions` | ios/boringssl/pki/crl.cc:516-608 | Accepts exactly the CRL extensions that are readable, fit the distribution point and scope, and hold no other critical one |
| `Crl.AnySignerWillDo` | ios/boringssl/pki/crl.cc:622-670 | The status depends neither on which later certificate signed, nor on their order, nor on what precedes the target |
| `NamePrinter.AsRFC2253String` | ios/boringssl/pki/parse_name.cc:81-147 | Prints type name, equals sign and the escaped text or hex form; refuses exactly what has no name or no readable value |
| `NamePrinter.ConvertToRFC2253` | ios/boringssl/pki/parse_name.cc:208-232 | Prints exactly the names all of whose attributes print, last RDN first |
| `NameReader.NameRoundTrip` | ios/boringssl/pki/parse_name.cc:208-232 | For every name that prints, splitting at unescaped separators and decoding finds the type names and values of all its RDNs but the empty ones at its end; so it recovers the name exactly when the last RDN is not empty |
| `NameReader.EmptyLastRdnVanishes` | ios/boringssl/pki/parse_name.cc:211-228 | A name with one more, empty RDN at its end prints the same, so no reader can tell |
| `NameReader.ValueRoundTrip` | ios/boringssl/pki/parse_name.cc:112-143 | Decoding recovers the value, and the hex form is never confused with escaped text |
| `NameReader.EscapeMeans` | ios/boringssl/pki/parse_name.cc:118-137 | Each byte is printed as three characters of hexadecimal escape, behind a backslash, or as itself, exactly by what it is and where it stands |
| `NameReader.TextConforms` | ios/boringssl/pki/parse_name.cc:118-137 | A printed text is visible ASCII, has every special behind a backslash, begins with neither space nor number sign, and ends in no bare space |
| `NameReader.PartMeans` | ios/boringssl/pki/parse_name.cc:63-147 | Which value is printed: text, or the encoding for unknown types and for teletex text that is not visible ASCII |
| `NameReader.ShortNamesByNumbers` | ios/boringssl/pki/parse_name.cc:85-105 | The nine short names belong to the OIDs of RFC 5280 and RFC 2985, given by their arcs, and to no other |
| `NameReader.SamePrintSameTypes` | ios/boringssl/pki/parse_name.cc:81-147 | Names whose last RDN is not empty that print alike have the same attribute types in the same places |
| `NameReader.SplitListed` | ios/boringssl/pki/parse_name.cc:211-228 | Splitting at unescaped separators undoes the joining of clean pieces, the first of them not empty |
| `TimeValues.EncodeGeneralizedTime` | ios/boringssl/pki/encode_values.cc:74-85 | Writes the fifteen characters of the time, or refuses exactly when a field does not fit its digits |
| `TimeValues.EncodeUTCTime` | ios/boringssl/pki/encode_values.cc:87-106 | Writes the thirteen characters, or refuses exactly outside 1950 to 2049 or when a field does not fit |
| `TimeValues.ParseGeneralizedTime` | ios/boringssl/pki/parse_values.cc:344-364 | Equals the parse of the whole input as digit fields, Z and validity; an accepted time lies in its month by day number and shows at most 23:59:60 |
| `TimeValues.ParseUTCTime` | ios/boringssl/pki/parse_values.cc:317-342 | Equals the parse of the whole input, with two-digit years below 50 in the twenty-first century; the same bounds on day and clock |
| `TimeValues.DecimalStringToUint` | ios/boringssl/pki/parse_values.cc:49-64 | Reads the given number of digits and their decimal value, and advances past them |
| `TimeValues.GeneralizedTimeRoundTrip` | ios/boringssl/pki/parse_values.cc:344-364 | A text parses to t exactly when t is valid and the text is its encoding: both round trips |
| `TimeValues.UtcTimeRoundTrip` | ios/boringssl/pki/parse_values.cc:317-342 | The same for UTCTime with its 1950-2049 window |
| `TimeValues.EncodingKeepsOrder` | ios/boringssl/pki/parse_values.cc:299-303 | For encodable times, the order of times is the byte-wise order of their encodings |
| `TimeValues.TextsMean` | ios/boringssl/pki/encode_values.cc:16-106 | Both encodings character by character: the digits of the fields in order, most significant first, and Z |
| `Calendar.ParsersAcceptCivilTimes` | ios/boringssl/pki/parse_values.cc:317-364 | Both parsers accept exactly the encodings of times whose day number lies between the first of their month and the first of the next, in closed form, and whose clock shows at most 23:59:60 |
| `Calendar.AcceptedFillsMonths` | ios/boringssl/pki/parse_values.cc:91-125 | A date is accepted exactly when its day number lies in its month; no table of months is involved |
| `Calendar.EveryDayIsAccepted` | ios/boringssl/pki/parse_values.cc:91-125 | Every day number of the years 0 to 9999 is the number of an accepted date, which is written and read back |
| `Calendar.DatesInOrder` | ios/boringssl/pki/parse_values.cc:91-125 | Accepted dates are ordered as their day numbers, and dates with one number are equal |
| `Calendar.NextDateIsNextDay` | ios/boringssl/pki/parse_values.cc:91-125 | Consecutive accepted dates are one day apart |
| `Calendar.BeforeMeans` | ios/boringssl/pki/parse_values.cc:299-303 | A time is before another exactly when its day is, or its clock on the same day |
| `Calendar.YearLength` | ios/boringssl/pki/parse_values.cc:91-125 | A year has 366 days exactly when 4 divides it and 100 does not unless 400 does, else 365 |
| `Calendar.FourCenturies` | ios/boringssl/pki/parse_values.cc:91-125 | Any 400 years have 146097 days |
| `TimeValues.UtcEncodingOrderExactly` | ios/boringssl/pki/encode_values.cc:87-106 | Two UTCTime encodings are ordered as their times are exactly when both lie before 2000 or neither does |
| `TimeValues.UtcEncodingBreaksOrder` | ios/boringssl/pki/encode_values.cc:87-106 | A concrete failure across the turn of the century |
| `BitStrings.ParseBitString` | ios/boringssl/pki/parse_values.cc:250-293 | Accepts exactly the octet strings of valid values, and returns that value |
| `BitStrings.UnusedBitsReadZero` | ios/boringssl/pki/parse_values.cc:228-248 | Positions beyond the length read as zero, so the test needs no look at the unused-bit count |
| `BitStrings.EncodingIsCanonical` | ios/boringssl/pki/parse_values.cc:250-293 | Two valid values that stand for one bit list are equal, and so are their encodings |
| `BitStrings.ValueStandsForItsBits` | ios/boringssl/pki/parse_values.cc:228-248 | Every valid value stands for a bit list, the one that the test reads |
| `BitStrings.EveryBitListIsEncoded` | ios/boringssl/pki/parse_values.cc:228-248 | Every bit list has a valid value whose bits are that list |
| `Input.LessThan` | ios/boringssl/pki/input.h:133-149 | The pointer loop decides the lexicographic order |
| `Input.LessTotal` | ios/boringssl/pki/input.h:133-149 | The order is strict and total and agrees with equality |
| `Input.LessTransitive` | ios/boringssl/pki/input.h:133-149 | The order is transitive |
| `Input.LessIsPrecedes` | ios/boringssl/pki/input.h:133-149 | The order is decided at the first difference, or by being a proper prefix |
| `ModExp.ModExp` | ios/boringssl/fuzz/bn_mod_exp.cc:28-58 | What a call leaves, for every base, exponent and modulus and for every sharing of objects: the non-negative residue of a^p where nothing but the exponent is shared |
| `ModExp.ResidueExactly` | ios/boringssl/fuzz/bn_mod_exp.cc:28-58 | When that is the least non-negative residue: with a result of its own always, but for the exponent 0 modulo -1; over the modulus for the modulus 1 or the exponent 0; over the base when a^p has the residue of 1 |
| `ModExp.OverBaseFails` | ios/boringssl/fuzz/bn_mod_exp.cc:40-42 | A concrete failure: 3 squared modulo 7 into the object that holds the 3 |
| `ModExp.RoundKeeps` | ios/boringssl/fuzz/bn_mod_exp.cc:44-54 | One round keeps r * base^exp modulo m while the exponent halves |
| `ConstantTime.LtMeans` | ios/boringssl/crypto/internal.h:388-426 | The mask is all ones exactly when a < b as unsigned words |
| `ConstantTime.GeMeans` | ios/boringssl/crypto/internal.h:434-438 | All ones exactly when a >= b |
| `ConstantTime.IsZeroMeans` | ios/boringssl/crypto/internal.h:446-460 | All ones exactly when the word is zero |
| `ConstantTime.EqMeans` | ios/boringssl/crypto/internal.h:467-471 | All ones exactly when the words are equal |
| `ConstantTime.SelectMeans` | ios/boringssl/crypto/internal.h:491-518 | Under a mask of all ones or zero, word and byte selection are conditional expressions |
| `ConstantTime.MemXorBlocked` | ios/boringssl/crypto/internal.h:544-566 | The 32-byte-blocked form leaves what the bytewise form leaves, for every length and mask, and nothing beyond |
| `ConstantTime.MemXor` | ios/boringssl/crypto/internal.h:562-565 | The bytewise form |
| `ConstantTime.XorByteMeans` | ios/boringssl/crypto/internal.h:541-543 | All ones combines the bytes, zero leaves them, and a second application restores them |
| `ConstantTime.MemCpy` | ios/boringssl/crypto/internal.h:530-539 | Copies under all ones, changes nothing under zero |
| `CarryChains.AddcU64` | ios/boringssl/crypto/internal.h:1603-1619 | ret + 2^64 * carry_out = x + y + carry_in, by two wrapped additions |
| `CarryChains.SubcU64` | ios/boringssl/crypto/internal.h:1666-1672 | ret - 2^64 * borrow_out = x - y - borrow_in |
| `CarryChains.AddWords` | ios/boringssl/crypto/fipsmodule/bn/generic.cc.inc:570-595 | The loop, four limbs at a time and then one, leaves the limb-wise sum and its carry, also when the result lies over an operand |
| `CarryChains.SubWords` | ios/boringssl/crypto/fipsmodule/bn/generic.cc.inc:597-622 | The same for the difference and its borrow |
| `CarryChains.SumIsExact` | ios/boringssl/crypto/fipsmodule/bn/generic.cc.inc:570-595 | The chain adds integers exactly, for any number of limbs |
| `CarryChains.DifferenceIsExact` | ios/boringssl/crypto/fipsmodule/bn/generic.cc.inc:597-622 | The chain subtracts exactly and borrows exactly when the true difference is negative |
| `CarryChains.ChainsUndoEachOther` | ios/boringssl/crypto/fipsmodule/bn/generic.cc.inc:570-622 | Adding and subtracting the same limbs restores the operand, and the carries agree |
| `CertificatePolicies.ParseCertificatePoliciesExtension` | ios/boringssl/pki/certificate_policies.cc:131-220 | Accepts exactly the well-formed extensions with pairwise distinct OIDs, with the OIDs in strictly increasing order; otherwise reports the least repeated OID |
| `CertificatePolicies.ParsePolicyQualifiers` | ios/boringssl/pki/certificate_policies.cc:42-93 | Accepts exactly the non-empty lists of complete qualifiers, of the two known kinds when restricted |
| `CertificatePolicies.WellFormedMeans` | ios/boringssl/pki/certificate_policies.cc:131-206 | What a well-formed extension is, policy by policy and qualifier by qualifier, with the two qualifier types demanded of anyPolicy |
| `CertificatePolicies.PolicyOids` | ios/boringssl/pki/certificate_policies.h:21-50 | The OIDs of anyPolicy and of the two qualifiers are the encodings of their arcs |
| `CertificatePolicies.SortAndCompare` | ios/boringssl/pki/certificate_policies.cc:208-217 | Sorting and looking at neighbours finds a repetition exactly when there is one |
| `CertificatePolicies.FirstNeighbours` | ios/boringssl/pki/certificate_policies.cc:210-217 | The first equal neighbours in the sorted list are the least repeated OID |
| `Sorting.SortedIsUnique` | ios/boringssl/pki/certificate_policies.cc:210 | A sorted list is determined by its contents, so the choice of sorting algorithm does not matter |
| `CpuInfo.StringPiece.Trim` | ios/boringssl/crypto/cpu_arm_linux.h:86-96 | Leaves the trimmed text, by moving both ends in place |
| `CpuInfo.TrimmedIsCore` | ios/boringssl/crypto/cpu_arm_linux.h:86-96 | Trimmed text is what lies between the blanks at both ends |
| `CpuInfo.Split` | ios/boringssl/crypto/cpu_arm_linux.h:51-67 | Cuts at the first separator, also when a part is the piece that is cut; without one nothing changes |
| `CpuInfo.GetDelimited` | ios/boringssl/crypto/cpu_arm_linux.h:69-84 | Yields the first entry and leaves the others; stops exactly on the empty text |
| `CpuInfo.EntriesArePieces` | ios/boringssl/crypto/cpu_arm_linux.h:69-84 | Repeated reading yields the pieces between separators without an empty last one |
| `CpuInfo.HasListItem` | ios/boringssl/crypto/cpu_arm_linux.h:121-131 | True exactly when the item is one of those pieces |
| `CpuInfo.ExtractCpuinfoField` | ios/boringssl/crypto/cpu_arm_linux.h:98-119 | Finds a value exactly when a line names the field, and it is the trimmed value of the first such line |
| `CpuInfo.LineMeans` | ios/boringssl/crypto/cpu_arm_linux.h:98-119 | A line of blanks, key, blanks, colon, blanks, value and blanks names the field exactly when the key is the field, and gives that value, colons in it included |

## Left out

- ThreadLocal.LiveThreadKeepsTheRest: when the mutex cannot be taken at thread exit, the code returns
  without destroying anything; the model shows what leaks and does not count it as destroyed.
- ExData.WalksAreSafe: memory orders other than sequential consistency are not modelled; the order of
  linking, counting and loading is what the theorem states instead.
- ExData.Slots.Set: a negative index aborts in the source and is not an input here.
- GeneralNames.ParseGeneralName: the bitfield of present types is a set, and a structure is a value that
  is passed on rather than updated in place.
- Ocsp.CheckOCSP: the raw bytes and certificates are parsed by parameters; `CheckOCSP` of the public
  interface is the same function with the two certificates given as bytes.
- Crl.CheckCRL: parsing of the issuing distribution point is a parameter; delta and indirect CRLs are
  refused by the source as well.
- NamePrinter.AsRFC2253String: an attribute with another string type stops a debug build by an assertion;
  the model follows the release build, which refuses it.
- ModExp.ModExp: allocation failures inside the big-integer routines. Their contracts for negative numbers (the
  remainder of `BN_nnmod` is non-negative, `BN_rshift1` shifts the magnitude) are taken as the code has them.
- CarryChains.AddWords: the inputs have one length, as the source's single count says.
- CertificatePolicies.ParseCertificatePoliciesExtension: error objects other than the reported OID, and
  the optional list of policy informations, which repeats the input in order.
- Sorting: the library sort in place; `Sorting.SortedIsUnique` shows that any correct sort gives this list.
- CpuInfo: conversion of feature names to capability bits, and reading the file.
- DER framing (`Parser`, CBS and CBB), hashing, signatures, certificate and extension parsing.
- `OPENSSL_strlcpy`, `OPENSSL_strlcat`, `CRYPTO_memcmp` and the case comparisons of `crypto/mem.cc`, and
  the error tree of `pki/cert_errors.cc`: easy members next to the above.
- T61 text as Latin-1, conversions between POSIX times and calendar times, debug strings.
- Creating OCSP requests, CPU feature probing, and the Flutter, GTK, Swift and Win32 runners.
