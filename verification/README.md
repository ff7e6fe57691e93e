# Verification model of the PKI service

A Dafny model of the HSM-backed PKI service and its keytool, with proofs of what they
promise. `dafny verify dfyconfig.toml` checks the whole project.

Three cores are modelled.

**Revocation as a concurrent machine.** `Store` holds one map from serial to record, the
specification that the two implementations (`Memory`, `SQLite`) are proved to refine.
`RevocationService` interleaves the lock regions and store transactions of issuing,
revoking, fetching a CRL, answering a status request and renewing the responder's
certificate; `RevocationSteps` says what each step touches, `RevocationSafety` and
`StrictRevocation` prove what every run keeps, and
`Server` ties the classes of the source, method by method, to the same functions.
`CrlFreshness` bounds the age of a CRL over every run; `CrlNumber` and `Renewal` treat the
CRL number counter and the renewal loop by themselves.

**Key custody under faults.** `Token` is an adapter over any number of tokens, in which
every call may fail, the generator may return any point again, a token may ignore the
protection asked of it, and two workspaces may be one token. `Ceremony`, `Reissue`,
`Loading`, `SigningKey`, `Inventory` and `InventoryChain` run over it: their contracts hold
for every schedule of faults, and say exactly what succeeds when no call fails.
`DistinctKeys` settles when provisioned keys stay apart. `Hierarchy` proves that what these
operations and issuance produce passes path validation. `Sessions` and `SessionSafety` are
the session budget and the adapter's session bookkeeping in any interleaving.

**Codecs and policy.** `Bytes`, `Der` and `EcPoint` are byte-level; `Glob` parses and runs
the regular expressions the compiler emits; `Issuance`, `Entitlement` and `Provenance` say
what a leaf may contain and where every returned certificate came from.

Keys are identities, a signature is the key that made it, and instants are integers in
nanoseconds. A fault, a clock reading, a random serial and the answer of a library that is
not modelled are inputs or arbitrary choices.

## Where the code and its documentation differ

- The entitlement documentation says `*` matches any run of characters
  (internal/entitlement/entitlement.go:46-51). The expression it compiles to uses a dot that
  does not match a newline. The model follows the code; `Glob.AgreesWithDocumentation` gives
  the exact condition.
- `Invalidate` is documented to make the next request be answered from the store
  (internal/responder/responder.go:221-223). A request that looked the serial up before the
  revocation's commit can still cache its answer after the drop:
  `StrictRevocation.StrictPromiseCanFail` is such a run, `StrictIffNothingStraddles` the exact
  condition, and `RevocationSafety.GoodIsBounded` what holds regardless.
- A signature under an expired responder certificate is documented not to be an answer
  (internal/responder/responder.go:286-289). The check uses the clock reading taken when the
  request began: `StrictRevocation.SigningCanBeLate` is a failing run,
  `StrictRevocation.SignaturesInWindow` and `HoldBoundIsExact` the exact condition.
- A failure within `Destroy` is documented to leave a public half and not a private one
  (internal/signingkey/signingkey.go:253-255). A private half is not visible on a token that
  is not logged in: `SigningKey.OrphanWithoutLogin`; `SigningKey.NoOrphanIff` is the exact
  condition, which its only caller meets by logging in first.
- A freshly generated key equal to one on the token is documented to be refused
  (internal/signingkey/signingkey.go:136-138), and the search for it to give the label of the
  other key, or "" when there is none (internal/signingkey/signingkey.go:181-182). The label
  of an unlabelled object is "" too, and the search stops there:
  `DistinctKeys.UnlabelledHidesRepeats` is a failing run; `DistinctKeys.ScanTellsIff`,
  `StaysDistinctIff` and `AlwaysDistinctIff` give the exact condition for one search, one
  provisioning and all runs.
- Retirement is documented to refuse to destroy a key the document is not talking about
  (cmd/hsm-pki-keytool/retire.go:31-34). It compares the public half only:
  `InventoryChain.RetireCanTakeAnother`; `InventoryChain.RetireTakesListedIff` is the exact
  condition, which `InventoryChain.RetiredIsListed` gives for every key this tool provisioned.
- Both stores implement one interface (internal/store/store.go:97-128), but SQLite writes null
  for the revocation time and reason of any record it inserts
  (internal/store/sqlite.go:82-85), which Memory keeps (internal/store/memory.go:28-53):
  `Store.HoldTheSameIff` is the exact condition, which newly issued records meet.
- The seed of the CRL number is documented to start a rebuilt store above the old sequence
  when the clock does not step back (internal/store/memory.go:124-129). It also needs a
  millisecond per number handed out: `CrlNumber.StalledClockRepeats`.

## Model

| member | source | states |
|---|---|---|
| `Clock.TruncateIsGreatest` | internal/store/store.go:90-95 | rounding to the second gives the latest whole second not after an instant, on both sides of the epoch |
| `Clock.TruncateKeepsWindow` | internal/ca/crl.go:22-31 | encoding a window in whole seconds never reverses it when it spans a second or ends on one |
| `Decimal.ParsePrint` | internal/store/sqlite.go:235-270 | printing a serial in decimal and reading it back gives the serial, for every integer |
| `Decimal.PrintIsInjective` | internal/store/memory.go:28-36 | two serials never share a text key |
| `Store.RecordsStay` | internal/store/memory.go:28-96 | no sequence of operations moves a record off its serial, forgets one, or changes the subject and expiry it was recorded with |
| `Store.FirstRevocationWins` | internal/store/memory.go:66-84 | after a revocation no later sequence of operations changes the reason and time that were asked for, a second revocation included |
| `Store.DecodedUpdate` | internal/store/sqlite.go:76-96 | writing a record under its decimal text is writing it under its serial and no other |
| `Store.RecordIsStored` | internal/store/memory.go:28-53 | what is recorded is what was given, in whole seconds, under its serial and nowhere else; a serial on record is refused and kept |
| `Store.RevocationIsStored` | internal/store/memory.go:66-84 | a revocation records the reason asked for and the time in whole seconds, of a serial not revoked before, and changes nothing else; which requests are refused and why |
| `Store.Memory.Record` | internal/store/memory.go:28-40 | the new map is the old one with the normalized record, or the old one unchanged with a duplicate error |
| `Store.Memory.Revoke` | internal/store/memory.go:66-84 | the new map and the error are those of the serial-indexed specification; a serial revoked now carries the reason and time asked for |
| `Store.Memory.ListRevoked` | internal/store/memory.go:86-96 | exactly the revoked records, each once |
| `Store.Memory.NextCrlNumber` | internal/store/memory.go:101-110 | one more than the last number, or a seed; the counter holds what was returned |
| `Store.SQLite.Record` | internal/store/sqlite.go:76-96 | any record is inserted under its serial with its revocation time and reason dropped, or refused as a duplicate; a fault leaves no trace |
| `Store.HoldTheSameIff` | internal/store/sqlite.go:82-85 | the two implementations hold the same map throughout a run exactly when no record added in it carries a revocation time or reason |
| `Store.FreshlyIssuedDropsNothing` | internal/store/store.go:100-103 | newly issued certificates, which is what Record is documented to take, carry none |
| `Store.SQLite.Get` | internal/store/sqlite.go:104-120 | the record of the serial-indexed map, or none |
| `Store.SQLite.Revoke` | internal/store/sqlite.go:122-153 | the same over rows of text and Unix seconds; a fault leaves no trace |
| `Store.ScanRevoked` | internal/store/sqlite.go:155-176 | the row loop yields every revoked record once, as scanned |
| `Store.SQLite.NextCrlNumber` | internal/store/sqlite.go:183-224 | persists what it returns, refuses an unreadable counter, and never seeds below the configured floor |
| `Store.BothStores` | internal/store/store.go:97-128 | both implementations give equal observations at every step of every sequence that adds no record carrying a revocation, and end in the map the sequence describes |
| `CrlNumber.IncreasingIffSeedsAbove` | internal/store/sqlite.go:183-224 | the numbers of a run with any number of lost stores increase exactly when every seed is drawn above the last number |
| `CrlNumber.OneStoreIncreases` | internal/store/sqlite.go:183-224 | over one store, restarts, floors and failures included, the numbers always increase (section 5.2.3 of RFC 5280) |
| `CrlNumber.PacedClockIncreases` | internal/store/memory.go:130-138 | they increase across lost stores when the clock gains a millisecond per number handed out |
| `CrlNumber.StalledClockRepeats` | internal/store/memory.go:130-138 | a concrete run without that pace repeats a number |
| `CrlNumber.ClockBeforeEpochRepeats` | internal/store/memory.go:130-138 | before the epoch every rebuilt store repeats the number 1 |
| `Crl.BuildCrl` | internal/ca/crl.go:22-52 | refuses an empty window and a number that is not positive; otherwise one entry per record, in order |
| `Crl.NextUpdate` | internal/api/server.go:538-545 | the end of a CRL is its validity after the reading or the issuer's end, whichever comes first |
| `Crl.BuiltWindowIsGood` | internal/api/server.go:536-546 | every CRL that is built has thisUpdate < nextUpdate <= the issuer's NotAfter, in encoded seconds |
| `RevocationSteps.StepMovesOne` | internal/responder/responder.go:248-338 | an action moves at most one request, and the phase a request is in names the action that brought it there |
| `RevocationSafety.StepKeepsInv` | internal/api/server.go:412-554 | every locked region and transaction of every request keeps the invariant of the two caches |
| `RevocationSafety.CrlListsReturnedRevocations` | internal/api/server.go:435-468 | in every interleaving a CRL served after handleRevoke succeeded lists the serial with its first recorded time and reason |
| `RevocationSafety.CrlsAreOrdered` | internal/api/server.go:507-554 | CRLs served keep their window; a later one has a higher number and every earlier entry |
| `CrlFreshness.CrlsAreFresh` | internal/api/server.go:507-554 | in every run each CRL served is dated back from the reading it was built at and ends with the configured validity or the issuer; it is served only to a request read at that instant or later and before its end |
| `RevocationSafety.GoodIsBounded` | internal/responder/responder.go:271-338 | a good answer expires within one window of the revocation's commit, whatever overlaps; unknown serials are never good |
| `RevocationSafety.ResponderIsCoherent` | internal/responder/responder.go:154-184 | each cached answer was signed under the current certificate for a recorded serial; that certificate is on record; answers are for instants inside their certificate's window |
| `StrictRevocation.StrictIffNothingStraddles` | internal/responder/responder.go:224-228 | once the commit and the cache drop are done, a later request can be told good exactly when an answer of good is still on its way into the cache |
| `StrictRevocation.AfterARevocationReturns` | internal/api/server.go:435-459 | the same, at the moment any revocation returns in any run |
| `StrictRevocation.StrictPromiseCanFail` | internal/responder/responder.go:274-337 | a concrete run in which a request that starts after the revocation returned is told good |
| `StrictRevocation.SignaturesInWindow` | internal/responder/responder.go:271-323 | over every run, all signatures are inside their certificate's window exactly when no request is held, between the clock reading its check used and its signature, for longer than its certificate had left |
| `StrictRevocation.SignatureInWindow` | internal/responder/responder.go:271-323 | the same at any point of any run, for a signature about to be made there |
| `StrictRevocation.HoldBoundIsExact` | internal/responder/responder.go:271-323 | for any request looked up in any run, signing within a bound of its reading is inside the window, whatever the delay, if and only if it had the bound left when checked |
| `StrictRevocation.SigningCanBeLate` | internal/responder/responder.go:271-296 | a failing input: a run that brings a request, held longer than a certificate lasts, to sign outside its window |
| `Server.OcspResponder.Invalidate` | internal/responder/responder.go:224-228 | drops every cached answer and keeps the certificate |
| `Server.OcspResponder.Swap` | internal/responder/responder.go:154-184 | installs the certificate with an empty cache |
| `Server.OcspResponder.KeepAnswer` | internal/responder/responder.go:325-337 | caches an answer only under the certificate still current, and stays coherent |
| `Server.OcspResponder.Respond` | internal/responder/responder.go:248-338 | whatever other requests do in its two gaps: a fresh cached answer is served, a new one is signed exactly when the store and the token answer and the certificate is in its window, and is then cached under it; the answer is for the serial asked, dated back, good when the serial is on record and unrevoked on return, and revoked only as recorded; malformed requests and foreign issuers are told so |
| `Server.CrlServer.InvalidateCrlCache` | internal/api/server.go:464-468 | drops the cached CRL |
| `Server.CrlServer.CurrentCrl` | internal/api/server.go:507-554 | a fresh cached CRL is served unchanged; otherwise one is built exactly when the store and the token answer and time is left of the validity and the issuer: dated back, ending with the validity or the issuer, listing all that was revoked on entry, with a fresh number, and cached; a failure leaves the cache alone |
| `Server.CrlServer.HandleRevoke` | internal/api/server.go:412-460 | with other requests acting after the commit and between the two drops: success leaves the serial revoked with the reason and time asked for, or with the first ones, no cached CRL that misses it and no cached status answer; each refusal has its reason and changes nothing |
| `Renewal.NeverExpires` | internal/responder/responder.go:191-219 | while the ticker keeps its interval and at most k renewals fail in a row, the certificate in use is unexpired at every instant |
| `Renewal.RenewalBoundIsExact` | internal/responder/responder.go:191-219 | that holds for every run if and only if (k+1) times the interval is at most half of validity plus skew |
| `Renewal.RunRenewal` | internal/responder/responder.go:191-219 | the loop installs what the ticks say and finds an unexpired certificate at each |
| `Issuance.Subject` | internal/profile/profile.go:274-299 | the subject is refused for one attribute the profile does not copy, else rewritten from its fields |
| `Issuance.RewrittenKeepsValues` | internal/profile/profile.go:274-299 | rewriting keeps every value of the five multi-valued types in order, and of the common names the last, so that these come through whole exactly when there is none, or one that is not empty |
| `Issuance.CommonNameIsLast` | internal/profile/profile.go:274-299 | of several common names the last stands |
| `Issuance.CheckSans` | internal/profile/profile.go:240-268 | accepts exactly the requests whose name types the profile copies, with at least one where it requires one |
| `Issuance.Issue` | internal/ca/ca.go:125-212 | the certificate or the first refusal in the order of the checks |
| `Issuance.IssuedIff` | internal/ca/ca.go:125-212 | a certificate exactly for a request that is signed, names its subject, and asks for no key, name, attribute or validity beyond the profile and the issuer |
| `Issuance.RefusedBecause` | internal/ca/ca.go:125-162 | each refusal has its reason, and none of those checked before it |
| `Issuance.LeafFollowsRequest` | internal/ca/ca.go:125-212 | a leaf carries the request's alternative names whole, of its subject nothing that was not asked for, the multi-valued types whole and the last common name; exactly the profile's usages, less key encipherment for an EC key; it lives from now for the profile's validity, inside its issuer's life, and is no CA |
| `Certificate.CheckIntermediateCert` | internal/ca/intermediate.go:87-129 | accepts exactly a CA with path length zero and both signing usages, not signed by its own key, while it lives |
| `Certificate.CheckRootMaySign` | internal/ca/reissue.go:119-168 | accepts exactly a self-signed CA that may certify a CA below it, while it lives and outlives the new certificate |
| `Certificate.RootMaySignIff` | internal/ca/ceremony.go:255-284 | a ceremony's root may sign at every instant of its life that leaves the intermediate its validity and at no other, and may sign CRLs |
| `Certificate.IntermediateLoadsIff` | internal/ca/ceremony.go:290-318 | an intermediate passes the load checks at every instant of its life and at no other, unless it carries the root's own key |
| `Certificate.IntermediateValidatesIff` | internal/ca/ceremony.go:290-318 | it validates under its root exactly while both live (section 6.1 of RFC 5280) |
| `Hierarchy.OnlyIntermediatesLoad` | internal/ca/intermediate.go:87-129 | of everything a reachable hierarchy produced, exactly its intermediates that live and have a key of their own pass the load checks |
| `Hierarchy.FirstLeafIsIssued` | internal/ca/ca.go:125-212 | from the beginning, a ceremony with two keys, a start on its intermediate and an allowed request are three steps that issue the leaf |
| `Hierarchy.ReissuedIff` | internal/ca/reissue.go:182-214 | a root of the hierarchy can certify another intermediate exactly while that leaves it its validity |
| `Hierarchy.LeavesValidateForLife` | internal/ca/ca.go:224-239 | in every reachable hierarchy leaf, intermediate and root pass path validation (section 6.1 of RFC 5280) at every instant from issuance to the leaf's NotAfter |
| `Hierarchy.LeavesCertifyNothing` | internal/ca/ca.go:156-207 | in every path that validates, under any root and through any certificates, an issued leaf is the last |
| `Hierarchy.NoFurtherTier` | internal/ca/ceremony.go:296-313 | under an intermediate no two further certificates validate, whatever they claim, unless the intermediate or the first of the two carries its issuer's own name |
| `Token.Adapter.LoginToken` | internal/pkcs11/tokenlogin.go:40-79 | succeeds exactly when no token is logged in, the slot holds one and the call does not fail; a failure changes nothing |
| `Token.Adapter.LogoutToken` | internal/pkcs11/tokenlogin.go:91-111 | clears the flag whatever the token answers |
| `Token.Adapter.FindKeyByLabel` | internal/pkcs11/findkey.go:26-43 | the one matching object; none and several are told apart |
| `Token.Adapter.LabelIsFree` | internal/pkcs11/findkey.go:48-58 | free exactly when nothing visible carries the label; an error only for an ambiguous label or a failing call |
| `Ceremony.GeneratedIsHeld` | internal/ca/ceremony.go:193-220 | the public half read back under a label that was free is the generated one, so the only private object under it is its other half |
| `Ceremony.DisciplinedWork` | internal/ca/ceremony.go:142-180 | work inside a login keeps the order of the run: keys only after both logins, a root key only after the separation search |
| `Ceremony.Leave` | internal/ca/ceremony.go:381-403 | logs out on every path and reports that only when nothing else failed |
| `Ceremony.CheckLogins` | internal/ca/ceremony.go:364-374 | both logins are tried and given back before any key exists; refused only for a login, a missing token or a failing call |
| `Ceremony.GenerateCeremonyKey` | internal/ca/ceremony.go:193-220 | only adds one pair under one free label, between a login and a logout; when no call fails, exactly when the label is free |
| `Ceremony.SignRootAndIntermediate` | internal/ca/ceremony.go:226-333 | a result exactly when the root's CRL was signed, with certificates over the keys the token holds; when no call fails, exactly when the root's label is free and the CRL's window is not empty |
| `Ceremony.RunCeremony` | internal/ca/ceremony.go:142-180 | for every fault schedule: one token logged in at a time, the flag clear at the end, no key replaced or removed, keys created only after logins and separation, extractable only where asked; a result exactly when the CRL was built, logout failing or not; then the tokens are two even when serials lie; both certificates serve from their making to the end of their validity, as the load checks and path validation see them; when no call fails there is a result exactly when the parameters are valid, nobody is logged in, the tokens are two and the labels are free |
| `Reissue.SignUnderExistingRoot` | internal/ca/reissue.go:218-278 | a missing root key is an error; only the key the root certificate certifies signs, approved at the instant the certificate carries; when no call fails nothing else is refused |
| `Reissue.ReissueIntermediate` | internal/ca/reissue.go:182-214 | the ceremony's discipline without a root of its own: the new label is the only one a key is ever created under; the intermediate serves for its life inside the root's; when no call fails there is a result exactly when the parameters stand at both readings, nobody is logged in, the tokens are two, the label is free and the root's token holds the certified key |
| `Loading.LoadIntermediate` | internal/ca/intermediate.go:50-83 | creates nothing; loads only a certificate that passes the tier's checks and whose key is the one under the label, and when no call fails exactly that |
| `SigningKey.Load` | internal/signingkey/signingkey.go:286-327 | the one public key under the label, on the curve, with the private half's protection as the token reports it; when no call fails, exactly when there is one |
| `SigningKey.Verify` | internal/signingkey/signingkey.go:344-350 | the same, and protected |
| `SigningKey.FindDuplicatePoint` | internal/signingkey/signingkey.go:181-217 | the label of the first object listed under another label with the same point, or the empty string; a label is only given for a point held elsewhere, and the empty string for one held elsewhere only when an unlabelled object holds it |
| `DistinctKeys.ScanTellsIff` | internal/signingkey/signingkey.go:181-217 | the scan tells a repeated point in every order of the token's objects exactly when no unlabelled public object carries it |
| `DistinctKeys.PassesIff` | internal/signingkey/signingkey.go:142-152 | the points that may pass as new: those held nowhere else, and those an unlabelled public object carries |
| `SigningKey.DestroyKeyPair` | internal/signingkey/signingkey.go:221-235 | removes both halves under the label and nothing else, unless a call fails or a label is ambiguous |
| `SigningKey.Provision` | internal/signingkey/signingkey.go:87-154 | a key only when it is protected, alone under its label, the one generated, and carried by no other public object unless by an unlabelled one; a repeated one it sees is held by the label it names and is undone unless a call of the undoing fails; one left readable or wrappable is told so; when no call fails a free label meets no other refusal; nothing else on the token changes |
| `SigningKey.ProvisionedIsNew` | internal/signingkey/signingkey.go:87-154 | a provisioned key is kept with those provisioned before and not destroyed since, and differs from each of them unless an unlabelled public object carries it |
| `DistinctKeys.StaysDistinctIff` | internal/signingkey/signingkey.go:138-152 | the next provisioning keeps these keys distinct, whatever the token generates, exactly when no unlabelled public object carries one of them of its curve |
| `SigningKey.LivePairIsWhole` | internal/signingkey/signingkey.go:286-327 | under such a label both halves read are the provisioned key |
| `SigningKey.NoOrphanIff` | internal/signingkey/signingkey.go:253-282 | however far Destroy got, it leaves a private half whose public half it removed exactly when it removed a public half on a token not logged in that holds a private one |
| `SigningKey.OrphanWithoutLogin` | internal/signingkey/signingkey.go:253-282 | such a token |
| `SigningKey.Destroy` | internal/signingkey/signingkey.go:256-282 | on every path what it reports removed is what is gone; no private half outlives its removed public half exactly under the condition above; an ambiguous label destroys nothing; when no call fails it is done exactly when there is something and nothing ambiguous |
| `SigningKey.RunCommands` | internal/signingkey/signingkey.go:87-282 | over every run, fault schedule and generator, the keys provisioned of which no half was destroyed since are on the token, and the states of the token between the commands bear out what each answered; no two of those keys hold one point if the token held no unlabelled public key at first and others make none |
| `DistinctKeys.AlwaysDistinctIff` | internal/signingkey/signingkey.go:181-217 | every run from a token in which others make no unlabelled key keeps them distinct exactly when the token holds no unlabelled public key |
| `DistinctKeys.UnlabelledHidesRepeats` | internal/signingkey/signingkey.go:142-152 | from any token, a run in which others make one unlabelled key and two labels then hold the same key |
| `Inventory.Validate` | internal/inventory/inventory.go:126-197 | the loop accepts exactly the documents meeting the declarative rules |
| `Inventory.ValidateEntry` | internal/inventory/inventory.go:163-191 | the entry checks are exactly the rules of one entry |
| `Inventory.RulesAre` | internal/inventory/inventory.go:126-197 | the rules one by one, over any two keys of the document |
| `Inventory.SignersAreVerifiable` | internal/inventory/inventory.go:291-333 | what may sign may be verified; neither list holds a retired or not yet valid key; both are refused exactly when expired |
| `Inventory.NoPointServesTwo` | internal/inventory/inventory.go:126-197 | in a valid document no point is selectable for two purposes at any instants |
| `Inventory.ActiveAt` | internal/inventory/inventory.go:321-333 | exactly the listed keys of the purpose that are active and valid by the instant, on a document that has not expired |
| `Inventory.VerifiableAt` | internal/inventory/inventory.go:304-316 | exactly the listed keys of the purpose that are active or verify-only and valid by the instant, on a document that has not expired |
| `InventoryChain.ByLabelSorts` | cmd/hsm-pki-keytool/inventory.go:320-323 | sorting entries loses and repeats nothing and orders the labels |
| `InventoryChain.ReadEntry` | cmd/hsm-pki-keytool/inventory.go:265-318 | valid_from is kept; retired only when listed before and the private label is absent; live entries are protected keys read off the token; when no call fails, exactly when there is such an entry |
| `InventoryChain.ReadEntries` | cmd/hsm-pki-keytool/inventory.go:216-324 | one entry per request, sorted, read with the inventory key absent from this token; when no call fails, exactly when each can be read |
| `InventoryChain.ReadFollows` | cmd/hsm-pki-keytool/inventory.go:265-323 | entries read against a valid document keep its dates, retire only what it listed, and are true of the token |
| `InventoryChain.EverySpecIsListed` | cmd/hsm-pki-keytool/inventory.go:265-323 | a generated document lists exactly what was asked for |
| `InventoryChain.GenerateInventory` | cmd/hsm-pki-keytool/inventory.go:62-209 | only a valid document comes out, one version up, read from the token as asked and true of it, signed by a key of another token whatever the serials say; valid_from and retired_at are the first ones listed; when no call fails, exactly when everything it needs is there |
| `InventoryChain.RetirableEntry` | cmd/hsm-pki-keytool/retire.go:120-150 | an entry exactly when the document lists the label as verify-only |
| `InventoryChain.RetireTakesListedIff` | cmd/hsm-pki-keytool/retire.go:186-197 | on any token, a retirement that took a private half took the listed key and no other exactly when the two halves under the label belong together |
| `InventoryChain.RetireCanTakeAnother` | cmd/hsm-pki-keytool/retire.go:186-197 | a token where they do not, on which it takes another key |
| `InventoryChain.RetiredIsListed` | cmd/hsm-pki-keytool/retire.go:186-197 | under a label provisioned, of which no half was destroyed since, everything that goes is the listed key, which is the provisioned one |
| `InventoryChain.ProvisionSigningKey` | cmd/hsm-pki-keytool/provision.go:110-142 | only adds objects under the label, between a login and a logout, and never on a token holding a CA hierarchy's key; a failed logout does not take the key back; when no call fails a free label is refused only for the key generated |
| `InventoryChain.CheckNoCaHierarchyKey` | internal/signingkey/signingkey.go:395-417 | passes exactly when no private object carries a CA hierarchy's label and no call fails |
| `InventoryChain.CaLabelIff` | internal/signingkey/signingkey.go:372-375 | those labels are exactly the two stems with a version, after nothing or a prefix ending in a hyphen |
| `InventoryChain.RetireSigningKey` | cmd/hsm-pki-keytool/retire.go:155-197 | removes at most the pair under the label, each half the only one of its class there, and only when the public half is the listed key; when no call fails, exactly when the token holds it so |
| `InventoryChain.Retire` | cmd/hsm-pki-keytool/retire.go:39-109 | any change to the token is the removal of a key a valid document lists as verify-only; when no call fails it is done exactly when the document lists the label so and the token holds that key |
| `InventoryChain.VersionsCount` | cmd/hsm-pki-keytool/inventory.go:164-168 | along a chain versions rise by exactly one |
| `InventoryChain.DatesAreKept` | cmd/hsm-pki-keytool/inventory.go:277-281 | a label listed throughout a stretch of documents has one valid_from |
| `InventoryChain.TrueOfLive` | cmd/hsm-pki-keytool/inventory.go:263-320 | a document true of a token lists under every live label the key provisioned there, and never as retired |
| `InventoryChain.RunKeytool` | cmd/hsm-pki-keytool/inventory.go:118-209 | over every run of provisioning, regeneration, retirement and keys made by others: the documents are those the steps generated and form one chain; each was, when generated, read off the token from the specs asked for, with no retired label holding a private half and every live label listing its own key; every change a retirement made to the token removed a key the latest document lists as verify-only, and under a live label only objects of that key; keys provisioned and not retired since are there, and distinct if the token held no unlabelled public key at first and others make none |
| `Bytes.PaddedValue` | internal/ca/signer.go:174-176 | bytes read as a number and padded back to their length are the same bytes |
| `Der.SignatureRoundTrip` | internal/ca/signer.go:163-177 | decoding the encoded SEQUENCE gives both numbers (sections 8.3 and 10.1 of X.690) |
| `Der.IntegerRoundTrip` | internal/ca/signer.go:163-177 | each INTEGER is minimal and non-negative and reads back |
| `Der.RawSurvives` | internal/ca/signer.go:170-178 | every non-empty signature of even length is encoded, no other is, and decoding and re-padding restores its bytes |
| `Der.RawIsInjective` | internal/ca/signer.go:170-178 | two signatures of one length never share an encoding |
| `Der.DecodedIsEncoded` | internal/ca/signer.go:163-177 | the strict decoder takes nothing but encodings |
| `Der.LongFormWhenNeeded` | internal/ca/signer.go:170-178 | up to P-521 sizes the length is one octet, or 0x81 and one octet exactly when the integers need it (section 8.1.3 of X.690) |
| `EcPoint.UnmarshalReadsUncompressed` | internal/pkcs11/eckey.go:19-21 | a bare string reads as a point exactly when it is that point's uncompressed form |
| `EcPoint.BothFormsDecode` | internal/pkcs11/eckey.go:18-31 | every point of each curve comes back from the bare and the wrapped form; the wrapper is three bytes for P-521 |
| `EcPoint.NeverBareAndWrapped` | internal/pkcs11/eckey.go:10-17 | no byte string is a bare point and also wraps one |
| `EcPoint.DecodesExactly` | internal/pkcs11/eckey.go:18-31 | exactly which byte strings are accepted, and as which point |
| `Text.SplitJoin` | internal/entitlement/entitlement.go:100-105 | splitting cuts at every separator and nowhere else |
| `Text.JoinSplit` | internal/pkcs11/adapters.go:62 | and joining pieces without the separator and splitting again gives them back |
| `Text.VersionedLabelIff` | internal/pkcs11/adapters.go:62-72 | a versioned label is exactly two words or more joined by hyphens, the last a version |
| `Glob.GlobRegexp` | internal/entitlement/entitlement.go:100-110 | the loop emits the quoted pieces joined by dot-star between anchors |
| `Glob.JoinedIsEmitted` | internal/entitlement/entitlement.go:100-110 | quoting pieces and joining is translating character by character |
| `Glob.ExpressionIsRead` | internal/entitlement/entitlement.go:100-110 | the expression parses as the glob's items between the two anchors, folded or not |
| `Glob.CompiledMatchesAsGlob` | internal/entitlement/entitlement.go:100-130 | the compiled expression accepts a name exactly when the direct reading of the glob does, for every glob and name |
| `Glob.AgreesWithDocumentation` | internal/entitlement/entitlement.go:46-51 | that reading agrees with the documented star on every glob exactly for names without a newline |
| `Entitlement.AcceptedTexts` | internal/entitlement/entitlement.go:65-97 | exactly which texts are patterns: a known type and a non-empty rest apart at the first colon, an address pattern's rest being a star or an address that reads |
| `Entitlement.WrittenIsRead` | internal/entitlement/entitlement.go:62-97 | writing a type and a glob and parsing them gives that type and glob back, compiled; an address comes back as it reads |
| `Entitlement.AcceptsWhatItMeans` | internal/entitlement/entitlement.go:113-130 | a compiled pattern accepts a name of its type exactly when its direct reading does |
| `Entitlement.NormalIs` | internal/entitlement/entitlement.go:113-130 | a version 4 address is the same in both its forms, and no other version 6 address is one |
| `Entitlement.Compile` | internal/entitlement/entitlement.go:151-179 | an entitlement exactly for an entry that grants something, nothing internal, nothing empty, nothing twice, with every pattern parsed |
| `Entitlement.PermitsNames` | internal/entitlement/entitlement.go:203-238 | permits exactly when every name of every kind has a pattern of its type that accepts it |
| `Provenance.Authenticate` | internal/api/auth.go:125-167 | the refusal that applies first, or the first URI name or else the common name of the client that is allowed, and none exactly when none is |
| `Provenance.DecideIssue` | internal/api/server.go:293-357 | the order of decisions, with the names check stated over all names |
| `Provenance.DecidedIff` | internal/api/server.go:293-357 | a certificate for an identity exactly under a profile granted to it and not internal, for names all within its patterns, and a request the authority allows |
| `Provenance.AllowedIsReturned` | internal/api/server.go:293-388 | a request the decision allows, from a client on record and unrevoked, leads in four steps to a returned certificate that is on record under its own subject |
| `Provenance.StepKeepsInv` | internal/api/server.go:293-388 | every step of every request keeps what is known of it |
| `Provenance.ReturnedIsAccountedFor` | internal/api/server.go:362-388 | in every run each returned certificate was recorded before and stays so, was asked for in a signed request by a URI name or the common name of a client unrevoked when checked, under a granted profile that is never the internal one, and each of its names is the request's own and within that identity's patterns |
| `Sessions.Session.Touch` | internal/pkcs11/session.go:29-43 | fails closed exactly when closed or past either budget, else counts as use |
| `Sessions.Session.Expired` | internal/pkcs11/session.go:47-55 | closed or past either budget, without counting as use |
| `Sessions.Session.MarkClosed` | internal/pkcs11/session.go:57-62 | closed and logged out for good |
| `Sessions.FindObjects` | internal/pkcs11/base.go:503-535 | the batch loop returns everything the search found, in order, whatever the sizes of the batches, and fails only when the module does |
| `SessionSafety.StepKeepsInv` | internal/pkcs11/base.go:207-274 | every step of opening, closing, sweeping, login and shutdown keeps the invariant |
| `SessionSafety.UsesStayWithinBudget` | internal/pkcs11/session.go:29-43 | in every interleaving each use is within the idle gap and the life of its session and follows nothing that closed it |
| `SessionSafety.NeverUsedAgain` | internal/pkcs11/session.go:29-55 | once closed or past its budget at some point of a run, a session is never used after it |
| `SessionSafety.DropsFollowReleases` | internal/pkcs11/base.go:258-274 | CloseSession drops an entry only after the module released the handle or was finalized |
| `SessionSafety.AnchorIsNeverSwept` | internal/pkcs11/tokenlogin.go:28-32 | the anchor handle is never listed, nor taken or closed by the sweep |

## Left out

- HTTP routing, logging, timeouts, health probes, flags, configuration files and PEM files: plumbing.
- The CRL `Cache-Control` header (internal/api/server.go:472-501), whose two reads may belong to different CRLs.
- RevocationSafety.ResponderIsCoherent: its window is that of the instant the request read from the clock, which the code checks; `StrictRevocation.SignaturesInWindow` is about the instant at which the token signs.
- Server.OcspResponder.Respond: other requests act in its two gaps as one arbitrary change that keeps the cache coherent, not as threads; the same holds of `Server.CrlServer.HandleRevoke`.
- Store.SQLite.Record: a transaction is one atomic step; SQLite itself is not modelled, and `Store.SQLite.NextCrlNumber` stands for a single process.
- Store.Memory.ListRevoked: that returned records are copies is not modelled, as records are values.
- Renewal.NeverExpires: the ticker is taken to fire at least once per interval, and a renewal to take no time.
- Hierarchy.LeavesValidateForLife: policies, name constraints and revocation of section 6.1 of RFC 5280 are not part of the path validation.
- Issuance.Issue: the random serial is an input, and the form of the distribution URLs is one flag.
- Ceremony.RunCeremony: sessions opened inside a login are folded into the calls that use them, and whether a token honours a requested protection is not promised.
- SigningKey.Provision: the random CKA_ID is not modelled.
- InventoryChain.GenerateInventory: JSON and the two files written are not modelled; a public_key field is what it parses to.
- Der.RawSurvives: a length is bounded by a signed 64-bit integer, as a slice's is.
- EcPoint.DecodesExactly: the standard library's point check is taken from sections 2.3.3 and 2.3.4 of SEC 1; the curve's equation is a parameter, so the results hold of any equation over the three fields.
- Glob.CompiledMatchesAsGlob: characters stand for code points; text that is not valid UTF-8, and the size limits of the expression compiler, are not modelled.
- Entitlement.ParsePattern: reading an IP address or a CIDR range is an input, as a range of addresses.
- Provenance.Authenticate: TLS chain verification is the listener's; the subject's text form is an uninterpreted function.
- SessionSafety.StepKeepsInv: PIN buffers, operating system threads and the module's own locks are not modelled; that no session handle leaks is not claimed, as the sweep ignores a failing close.
- Signer.Sign's guards on hash and digest length, GenerateRandom, Encrypt, Decrypt, Wrap and Unwrap: thin calls.
- Profile and entitlement configuration beyond one compiled entry, `internal/config`, `internal/keyaudit`, `internal/artifactsig`, the `ci` tools and the cluster policy.
- Cryptographic strength, certificate encoding, and hash functions beyond equality.
