# Verification of the inbound control plane

This project models the parts of proxy-suite that keep its inbounds running and its links usable, and proves
what they promise:

- **Live reconciliation**: what a new rendering changes in a running XRay, command by command, and the fall back to
  a restart, over any sequence of applies with any failures; and that nothing else is touched, and nothing restarted
  without need.
- **The QR encoder** of the subscription page, from the field arithmetic up: the function patterns of every version
  leave just the modules its capacity counts, every symbol gives back the text's bytes to an independent reader, which
  takes the level, the mask and the version from either copy in the symbol, and every block of it is a Reed-Solomon
  codeword.
- **Traffic metering**: periods on a real calendar in any time zone, and usage that is exact over every run of
  collections, ticks, rolls, resets and changes of the period wherever the traffic renews, and where it does not exactly
  while nothing is lost with the days that the collector drops.
- **Allocators** that are kept from run to run: tunnel addresses, keys and obfuscation values of AmneziaWG users,
  speed-limit slots, and the numbers of runtime users.
- **The checker** that filters subscription entries through the backend's own config check, and what it costs.
- **Share links**, printed and read back byte by byte.
- **The rewriting of a WireGuard configuration** for an outbound, against an independent reader of it.
- **The speed-limit transaction** on an nftables table that refuses what nftables refuses, and the cache before it.
- **Fallbacks**: which listeners may stay, and which ports a connection may have come through.

`dafny verify dfyconfig.toml` checks all of it. One module is one file. Objects whose methods update their fields are
classes (`Checker`, `Matrix`, `Host`, `Account`, `Manager`, `Filter`); loops that update variables are methods with
invariants, each proved against a specification function whose properties are lemmas; the rest is functions.
`Wrappers`, `Arithmetic`, `Ordering`, `Decimal` and `Text` are shared.

## Findings

Where the code does not do what one would expect of it, the code is modelled as it is:

- A period without an anchor day drifts: one that starts on 31 January 2023 renews on the 28th in every month from then
  on. `Periods.UnanchoredKeepsDay` says exactly when a day is kept, `Periods.UnanchoredDrifts` is the drift.
- The collector keeps 366 days. A user whose traffic renews is measured exactly all the same; one whose traffic does not
  is shown less than there was once the day the count began on is dropped, unless nothing since was on a dropped day and,
  if that day had traffic before, there was nothing since at all: its baseline is still taken off
  (`Metering.UsedIsExact`, `Metering.YearOld`).
- A transport path survives a share link exactly when it is not empty and nothing in it reads as an escape, because
  the parser unquotes it twice (`ShareLink.PathBack`; `ShareLink.EscapedPath` is one that does not).
- A shadowsocks link that is all in base64 has its password unquoted, though nothing quotes it there
  (`ShareLink.LegacyBack`): it comes back exactly when it has no escape (`Percent.UnquoteFixed`).
- When two listeners name one fallback target, a listener can be dropped that could have stayed
  (`Fallbacks.SurvivorsNotLargest`). Whatever is supported within itself stays unless it has the later of two such
  listeners in it (`Fallbacks.SupportedSurvive`); when no two are, what stays is the most that could
  (`Fallbacks.SurvivorsLargest`).
- The limits transaction is refused exactly when two peers of one interface have one address and are both limited the
  same way (`Limits.ScriptRuns`, `Limits.ClashingPeers`); the addresses handed out never do (`SpeedPeers.NoPeersClash`).
- `sync_config` raises a `KeyError`, which `apply_xray` catches by name, for a changed listener that has no user list at
  all any more (`ConfigFile.Unreadable`, `ConfigFile.LostUserList`): `config.json` is left as it was then.
- An IPv6 address may have a semicolon in its scope, where the section reader sees a comment. The addresses it sees after
  an outbound's rewriting are the ones it saw before, narrowed, exactly when the address with a text's first semicolon is
  the same host cut there and none follows it (`AwgOutbound.AddressesAsRead`): with `fe80::1%a;b, 10.0.0.2/24` the reader
  sees one address before and two after (`AwgOutbound.ScopedConfig`).
- The rewriters match keys as `re.IGNORECASE` folds them, so that a long s is an s; the reader does not
  (`AwgConfig.ReaderAgrees`). The rewriting leaves every other key as the reader saw it exactly when none folds to DNS,
  none to ListenPort while a privileged one is dropped, and addresses under a key that folds to Address are narrowed
  already (`AwgOutbound.OthersKept`). The check sees to that unless hooks are allowed (`AwgOutbound.AsciiOthersPlain`);
  then a `DNſ` line is one that is lost (`AwgOutbound.LongSConfig`).

## Model

| member | source | states |
|---|---|---|
| SubscriptionCheck.Checker.RunBackend | scripts/fetch-subscription.py:67-101 | what is assumed of the backend: it accepts exactly the batches with no bad entry, and an error that names an entry of the batch names a bad one |
| SubscriptionCheck.Checker.Refused | scripts/fetch-subscription.py:67-101 | one run at most; the batch is taken only if it has no bad entry, a named entry is in it and bad; it gives up only when the runs or the time are used up |
| SubscriptionCheck.Checker.Keep | scripts/fetch-subscription.py:103-115 | never drops a good entry, keeps the order, drops just the entries the backend named or refused alone, and with budget left returns precisely the good entries, within the runs a batch may take |
| SubscriptionCheck.Checker.KeepBatch | scripts/fetch-subscription.py:120-141 | the same of the loop that drops named entries and bisects unnamed refusals, also when it gives up: at most 1 + 2 * bad * ceil(log2 n) runs |
| SubscriptionCheck.CeilLog2Meaning | scripts/fetch-subscription.py:120-141 | the logarithm in that bound is the least exponent whose power of two reaches the number of entries |
| SubscriptionCheck.BisectCost | scripts/fetch-subscription.py:135-140 | a run and both halves stay within the bound of the whole batch |
| SubscriptionCheck.DropCost | scripts/fetch-subscription.py:132-134 | a run and the batch without the named entry stay within the bound |
| SubscriptionCheck.CostMeaning | scripts/fetch-subscription.py:120-141 | so the bound is 1 + 2 * bad * ceil(log2 n) |
| Gf256.MulCommutative | scripts/inbound_subscription.py:422 | the product of field elements does not depend on their order |
| Gf256.MulAssociative | scripts/inbound_subscription.py:422 | nor on how three are grouped |
| Gf256.MulDistributes | scripts/inbound_subscription.py:422 | it distributes over addition, which is exclusive or |
| Gf256.NoZeroDivisors | scripts/inbound_subscription.py:422 | no product of two nonzero bytes is zero: bytes modulo 0x11D are a field |
| Gf256.AlphaSum | scripts/inbound_subscription.py:424 | powers of 2 multiply by adding exponents |
| Gf256.AlphaValues | scripts/inbound_subscription.py:424 | 2 to the 255 is 1, and none of its powers that would make the order smaller is |
| GfLoop.MulLoop | scripts/inbound_subscription.py:422 | the encoder's loop over the bits computes the field product, on its integers |
| ReedSolomon.GeneratorLoop | scripts/inbound_subscription.py:423-424 | the coefficients the loop leaves are the product of x + 2^k for k below the degree, without the leading one |
| ReedSolomon.GeneratorRoots | scripts/inbound_subscription.py:423-424 | that polynomial is zero exactly at the first powers of 2 |
| ReedSolomon.RemainderLoop | scripts/inbound_subscription.py:427 | the register the loop shifts is the remainder of the block |
| ReedSolomon.FeedKeepsRoot | scripts/inbound_subscription.py:427 | each byte shifted in keeps prefix and register together zero at every root |
| ReedSolomon.BlockIsCodeword | scripts/inbound_subscription.py:426-428 | data followed by its remainder is zero at 2^0 to 2^(deg-1), for every block and degree |
| CodeDistance.SparseVanishes | scripts/inbound_subscription.py:426-428 | as many vanishing power sums as there are terms force every coefficient to zero |
| CodeDistance.CodewordsFarApart | scripts/inbound_subscription.py:426-428 | two different codewords of at most 255 bytes differ in more bytes than the degree |
| CodeDistance.DamageIsRepairable | scripts/inbound_subscription.py:426-428 | half the degree of damaged bytes leaves a block nearer to what was sent than to any other block |
| CodeDistance.RemainderUnique | scripts/inbound_subscription.py:427 | no other tail makes a codeword of the same data |
| CodeDistance.AlphaDistinct | scripts/inbound_subscription.py:424 | the first 255 powers of 2 are different |
| QrStream.ChooseVersion | scripts/inbound_subscription.py:415 | the first version that holds the bytes, and none only if none of the forty does |
| QrStream.EveryVersionSound | scripts/inbound_subscription.py:411-416 | in every version the blocks have at most 255 bytes and data each, and the count field says any number of bytes that fit |
| QrStream.HoldsMeaning | scripts/inbound_subscription.py:411-415 | a version holds exactly the bytes that its data bytes, from table 7 of ISO/IEC 18004:2015, have room for besides mode and count |
| QrStream.Put | scripts/inbound_subscription.py:417 | appends the number's bits, highest first |
| QrStream.EncodeData | scripts/inbound_subscription.py:418-421 | the data bytes are the message, the terminator and the pad bytes, and fill the version exactly |
| QrStream.Pack | scripts/inbound_subscription.py:421 | the bytes are the bits, eight at a time |
| QrStream.BytesRoundTrip | scripts/inbound_subscription.py:417-421 | bytes written as bits and packed again are the same bytes |
| QrStream.BitsRoundTrip | scripts/inbound_subscription.py:421 | bits packed into bytes and written again are the same bits |
| QrStream.DecodeMessage | scripts/inbound_subscription.py:418-421 | an independent decoder of byte mode reads the message back from any stream that starts with it |
| QrBlocks.MakeBlocks | scripts/inbound_subscription.py:425-428 | the blocks split the data in order, short ones first, and carry their own error correction |
| QrBlocks.Interleave | scripts/inbound_subscription.py:429-430 | every byte of every block stands where section 7.6 of ISO/IEC 18004:2015 puts it |
| QrBlocks.BlocksFillCapacity | scripts/inbound_subscription.py:425-426 | the block lengths sum to the data capacity |
| QrBlocks.DeinterleaveInverts | scripts/inbound_subscription.py:429-430 | a reader that takes the columns apart gets the data back |
| QrLayout.ZigzagVisitsAll | scripts/inbound_subscription.py:446-447 | every module outside column 6 is visited, at a step that is computed |
| QrLayout.ZigzagVisitsOnce | scripts/inbound_subscription.py:446-447 | none is visited twice, none in column 6 or outside the matrix |
| QrLayout.PlaceStep | scripts/inbound_subscription.py:447 | a free module takes the next bit, any other stays |
| QrLayout.FlipTwice | scripts/inbound_subscription.py:451 | flipping a mask twice restores the matrix |
| QrLayout.MaskCovers | scripts/inbound_subscription.py:448-450 | each of the eight masks covers the modules of the condition the standard has for it, which the reader goes by |
| QrLayout.TrialsIndependent | scripts/inbound_subscription.py:459-460 | an earlier trial leaves nothing behind in a later one |
| QrLayout.ReadBackPlaced | scripts/inbound_subscription.py:446-451 | unmasking the finished matrix and reading the zigzag yields the codewords' bits, for every mask |
| QrReader.FormatWordSound | scripts/inbound_subscription.py:439 | a format word, its own mask undone, is a multiple of x^10+x^8+x^5+x^4+x^2+x+1 |
| QrReader.FormatReads | scripts/inbound_subscription.py:439-443 | over whatever is drawn, a reader of either copy finds all fifteen bits: a codeword that names level M, 00, and the mask |
| QrReader.VersionWordSound | scripts/inbound_subscription.py:444 | a version word is a multiple of x^12+x^11+x^10+x^9+x^8+x^5+x^2+1 |
| QrReader.VersionReads | scripts/inbound_subscription.py:444-445 | a reader of either copy finds all eighteen bits: a codeword that names the version |
| QrMatrix.Matrix.SetModule | scripts/inbound_subscription.py:432 | one module drawn and reserved, the others as they were |
| QrPatterns.FreeModules | scripts/inbound_subscription.py:412-445 | in every version the timing, finder, alignment, format and version patterns leave exactly the modules that the capacity formula counts |
| QrPatterns.FreeCount | scripts/inbound_subscription.py:446-447 | the zigzag finds every module free that is not reserved, but for column 6 |
| QrPatterns.AlignmentAlone | scripts/inbound_subscription.py:436-438 | no alignment pattern meets a finder, the format or the version, or leaves the matrix |
| QrPatterns.AlignmentsApart | scripts/inbound_subscription.py:436-438 | nor another alignment pattern |
| QrPatterns.BlocksTotal | scripts/inbound_subscription.py:412 | the modules all alignment patterns take are what the capacity formula takes off for them |
| QrPatterns.FinderRings | scripts/inbound_subscription.py:434-435 | a finder drawn in rings is the picture the standard has of one |
| QrPatterns.AlignmentRings | scripts/inbound_subscription.py:436-438 | so is an alignment pattern |
| QrMatrix.Matrix.Timing | scripts/inbound_subscription.py:433 | row and column 6 dark and light by turns, and nothing else |
| QrMatrix.Matrix.Rings | scripts/inbound_subscription.py:434-438 | rings around a centre as far as they are inside, dark but for those named, and nothing else |
| QrMatrix.Matrix.Finders | scripts/inbound_subscription.py:434-435 | the three finders with their borders, and nothing else |
| QrMatrix.Matrix.Positions | scripts/inbound_subscription.py:436 | the alignment lines, 6 and then evenly spaced up to the last |
| QrMatrix.Matrix.Alignment | scripts/inbound_subscription.py:437-438 | an alignment pattern at every crossing of lines but where a finder is, and nothing else |
| QrMatrix.Matrix.Version | scripts/inbound_subscription.py:444-445 | both copies of the version, and nothing else |
| QrMatrix.Matrix.DrawPatterns | scripts/inbound_subscription.py:431-445 | every function pattern as it should be, whatever was drawn over it, and all of them reserved |
| QrMatrix.Matrix.Format | scripts/inbound_subscription.py:439-442 | both copies of the format and the dark module, and nothing else |
| QrMatrix.Matrix.Place | scripts/inbound_subscription.py:446-447 | the codewords' bits on the free modules in zigzag order |
| QrMatrix.Matrix.Flip | scripts/inbound_subscription.py:451 | each free module under the mask turned over |
| QrMatrix.Matrix.ChooseMask | scripts/inbound_subscription.py:459-460 | the matrix left is the candidate of the first mask with the lowest penalty of all eight |
| QrCode.Codewords | scripts/inbound_subscription.py:422-430 | the interleaved words read back as the data, and every block of them is a codeword |
| QrCode.QrMatrixOf | scripts/inbound_subscription.py:410-460 | for every text, and whatever the penalty: the symbol of the smallest version whose data bytes, from table 7 of ISO/IEC 18004:2015, hold it; it decodes to its bytes by the level, the mask and the version that either copy of its format and version names, its blocks are codewords of the degree of that level, and its function patterns are as the standard pictures them; there is none exactly when no version holds it |
| Reconcile.RestartMeaning | scripts/inbound_apply.py:87-110 | a restart is planned exactly when a listener came, went or changed apart from its users |
| Reconcile.SplitMeaning | scripts/inbound_apply.py:65-80 | a listener whose clients all have different emails is run without its list, with exactly those users, each as in the list, the stand-in aside; any other listener comes whole |
| Reconcile.ListenerMeaning | scripts/inbound_apply.py:95-96 | of the listeners with one tag the last counts |
| Reconcile.RunningMeaning | scripts/inbound_apply.py:117-130 | the rules, the tags of listeners and outbounds, and the addresses of either family that make what runs |
| Reconcile.OutboundMeaning | scripts/inbound_apply.py:119-122 | of the outbounds with one tag the last counts |
| Reconcile.NoopMeaning | scripts/inbound_apply.py:136-139 | nothing is to be done exactly when both renderings make XRay run the same, the outputs agree and none is pending |
| Reconcile.PlanNamesOnlyChanges | scripts/inbound_apply.py:106-112 | an email is named for a listener exactly when its client came, went or differs |
| Reconcile.PlanNamesByLists | scripts/inbound_apply.py:65-112 | over the two lists of a listener: an email is named exactly when a client of it is in one and not in the other, and the stand-in never |
| Reconcile.RelevelMeaning | scripts/inbound_apply.py:113 | marked as changed in level alone are just the users whose clients differ in nothing else |
| Apply.ChangeApplies | scripts/inbound_apply.py:252-290 | removing, then adding a listener's changed users meets each command's precondition and leaves the new users |
| Apply.Host.Rmu | scripts/inbound_apply.py:268-269 | needs every email to be there; takes those users out, or fails and leaves anything |
| Apply.Host.Adu | scripts/inbound_apply.py:281-285 | needs every email to be absent; puts those users in, or fails and leaves anything |
| Apply.Host.RunSteps | scripts/inbound_apply.py:252-314 | from any state that runs the old rendering, every command is issued within its precondition and about something that differs, and the new rendering runs unless a command fails |
| Apply.Host.RunAddresses | scripts/inbound_apply.py:301-313 | addresses are only added where they are not; those to remove are gone if deleting works |
| Apply.Host.SyncSingBox | scripts/inbound_apply.py:351-381 | sing-box has the new configuration, by a reload or by a restart that also writes the outputs |
| Apply.Host.ApplyXray | scripts/inbound_apply.py:414-462 | with any failures, what is saved runs, and the outputs on disk are the saved ones or are flagged as pending; where nothing differs and nothing is pending, nothing is done; the inbounds are restarted only if nothing was saved, arguments were missing, it could not be rendered, a listener came, went or changed apart from its users, sing-box cannot be reloaded, or something failed; no command is about anything that is the same |
| Apply.Host.ApplyAll | scripts/inbound_apply.py:414-462 | the same over any sequence of applies, specifications that cannot be rendered and missing arguments included: the next success writes whatever was left |
| ConfigFile.SyncConfig | scripts/inbound_apply.py:317-338 | config.json says what XRay now runs if it said what it ran before; it is unreadable exactly when a changed listener lost its user list |
| ConfigFile.LostUserList | scripts/inbound_apply.py:317-338 | a listener that lost its user list with its last user is one such |
| Calendar.OrdinalMonotone | scripts/inbound_policy.py:463-469 | day numbers follow the calendar, over months, years and leap years |
| Calendar.NumberOfOrdinal | scripts/inbound_policy.py:463-469 | a date's number leads back to the date |
| Calendar.OrdinalOfNumber | scripts/inbound_policy.py:463-469 | a number's date leads back to the number |
| Calendar.EpochDay | modules/proxy-suite/inbound-stats-add.jq:41 | the day that times are counted from has the number that universal days are counted from |
| Periods.EndIsLater | scripts/inbound_policy.py:472-480 | every boundary is later than the start, so the loop ends |
| Periods.EndWithin | scripts/inbound_policy.py:472-480 | and at most 61 days later |
| Periods.RollPeriod | scripts/inbound_policy.py:495-505 | the loop leaves the rolled state, and says whether anything changed |
| Periods.RolledMeaning | scripts/inbound_policy.py:495-505 | rolling stops at a boundary exactly when it is the last one not after now |
| Periods.RollingIsPathIndependent | scripts/inbound_policy.py:495-505 | rolling to one time and then a later one is rolling to the later one at once |
| Periods.MonthlyBoundary | scripts/inbound_policy.py:463-480 | the k-th monthly boundary is the anchor day of the k-th month, or its last day |
| Periods.DailyBoundary | scripts/inbound_policy.py:463-480 | the k-th daily or weekly boundary is that many days or weeks on |
| Periods.EndRenews | scripts/inbound_policy.py:463-480 | a period ends on the first renewal after it began: the next midnight, the seventh, or that of the day of the month, or of the month's last day, in a later month |
| Periods.RolledRenews | scripts/inbound_policy.py:495-505 | rolled from anywhere, a period that began on a renewal begins on the last one not after now |
| Periods.UnanchoredBoundary | scripts/inbound_policy.py:463-480 | without an anchor the day of the month only goes down |
| Periods.UnanchoredKeepsDay | scripts/inbound_policy.py:463-480 | its day stays exactly while every month come to since the start is long enough for it |
| Periods.UnanchoredDrifts | scripts/inbound_policy.py:463-480 | a period from 31 January 2023 renews on the 28th in every month from then on |
| Metering.PeriodTraffic | scripts/inbound_policy.py:438-456 | the loop over the days computes the difference from the baseline |
| Metering.UsedIsExact | scripts/inbound_policy.py:438-456 | while the first day is kept that is exactly the traffic counted since the period began, and no subtraction clips; after that it is exactly when nothing is lost, and never more |
| Metering.UsedIsShown | scripts/inbound_policy.py:438-456 | what it is else: the traffic on days that are kept, less the baseline |
| Metering.KeptCollected | modules/proxy-suite/inbound-stats-add.jq:41 | dropping old days leaves the sums from any later day as they were |
| Metering.CurrentKept | scripts/inbound_policy.py:472-480 | a period that has not ended began at least 305 days after the first day kept, in any zone |
| Metering.YearOld | modules/proxy-suite/inbound-stats-add.jq:41 | five bytes of the first day, of a user without a period: 400 days on none are shown |
| Metering.RenewalMeasures | scripts/inbound_policy.py:495-505 | a renewal moves the beginning to the boundary: what was logged before it belongs to the old period, the rest to the new |
| Metering.RollMeasures | scripts/inbound_policy.py:495-505 | so does every roll, across any number of boundaries |
| Metering.PeriodHolds | scripts/inbound_policy.py:495-505 | a period measures just the traffic logged from its start to its end |
| Metering.PeriodsPartition | scripts/inbound_policy.py:495-505 | consecutive periods share out all the traffic: none is in no period, none in two |
| Metering.StartMeasures | scripts/inbound_policy.py:483-492 | a period that starts now measures nothing yet, whatever the day had before |
| Metering.Account.Collect | modules/proxy-suite/inbound-stats-add.jq:20-41 | traffic is logged and counted into its day, days before the last 366 are dropped, and what is kept stays exact |
| Metering.Account.SetPeriod | scripts/inbound_manager.py:283-315 | when the traffic renews may change at any time; it renews as the new period says from where the running one began |
| Metering.Account.Tick | scripts/inbound_manager.py:501-528 | the collector runs, a new user starts now, on today's day of the month, and another's period rolls: after any run of calls, a period that renews begins on the last renewal there was, by the day it was started on, and on a day that is kept, and exactly the traffic from there on is its |
| Metering.Account.Reset | scripts/inbound_manager.py:416-428 | the measured traffic starts over from nothing, now, and renews on today's day of the month |
| Metering.Account.Show | scripts/inbound_policy.py:438-460 | what is shown is exactly the traffic since the period began, if and only if the day it began on is kept or nothing is lost with it |
| Metering.Account.Look | scripts/inbound_policy.py:548-552 | a copy rolled for a look shows exactly the traffic of the period a tick now would find, at any time, if the traffic renews |
| Metering.Account.LookThenTick | scripts/inbound_policy.py:548-552 | a look just before a tick shows what is shown after it, but for what the tick collects |
| AwgAddresses.AllocateAddresses | scripts/awg_inbound.py:130-167 | the three loops, the last drawing from one pass over the free offsets, give what the passes specify |
| AwgAddresses.AllocateFailure | scripts/awg_inbound.py:130-167 | an allocation succeeds exactly when the declared addresses are clients' and distinct and the users are no more than the capacity |
| AwgAddresses.AllocateError | scripts/awg_inbound.py:130-167 | an error names the first user whose declared address is no client's or an earlier user's, or, when there are more users than room, one without an address |
| AwgAddresses.ClientOffsets | scripts/inbound_runtime.py:96-104 | an offset is a client's exactly when it is inside both subnets and is not the network's, this host's or the IPv4 broadcast's |
| AwgAddresses.AllocateSound | scripts/awg_inbound.py:130-167 | every user gets one offset, different from all others, above 1 and below the end |
| AwgAddresses.AllocateHonours | scripts/awg_inbound.py:142-152 | a declared address is given: the user's offset from the subnet leads to it |
| AwgAddresses.AllocateKeeps | scripts/awg_inbound.py:153-158 | a stored offset stays with its user unless it no longer fits, is declared, or is stored for another too |
| AwgAddresses.FreeFacts | scripts/awg_inbound.py:159-166 | every other user gets an offset below which none is left free |
| AwgAddresses.FreeInOrder | scripts/awg_inbound.py:159-166 | newcomers get rising offsets in the order they come |
| AwgAddresses.DeclaredWellMeaning | scripts/awg_inbound.py:142-152 | declared addresses are well exactly when each is a client's and no two are the same |
| AwgAddresses.AllocateFixed | scripts/awg_inbound.py:130-167 | allocated again from the outcome, in any order of the users, the outcome is the same |
| AwgAddresses.BindUsers | scripts/inbound_runtime.py:995-1019 | runtime users join a listener as long as it has room; those who do not have a problem recorded, and only those |
| AwgAddresses.GuardSuffices | scripts/inbound_runtime.py:1007-1011 | with that guard, and declared users who fit, the allocation cannot fail |
| AwgObfuscation.SomeValid | scripts/awg_inbound.py:56-64 | every choice has a valid value whatever the others are, so the retries can end |
| AwgObfuscation.GenerateObfuscation | scripts/awg_inbound.py:47-89 | every field the declaration leaves out gets a value valid around those before it, the stored one if that is |
| AwgObfuscation.WellChosenMeaning | scripts/awg_inbound.py:68-86 | junk sizes are in range and order, and the padded handshakes differ, wherever one of a pair was generated |
| AwgObfuscation.ChosenAround | scripts/awg_inbound.py:56-89 | every generated value is in its field's range around the declared ones and those before it, and the stored one stays whenever it is |
| AwgObfuscation.HeadersDiffer | scripts/awg_inbound.py:86-88 | a generated header differs from the three others, declared or generated |
| AwgObfuscation.GeneratedIsFixed | scripts/awg_inbound.py:47-89 | generated again from what was generated, nothing changes |
| AwgState.MakeServer | scripts/awg_inbound.py:177-186 | the server's keys from its file, or kept, or made; it fails only on an unreadable file |
| AwgState.MakeEntry | scripts/awg_inbound.py:190-206 | a user's keys as declared, or kept, or made, and a preshared key only for those who bring none |
| AwgState.UpdateState | scripts/awg_inbound.py:170-210 | the next state keeps whatever can be kept and drops who is gone; it fails exactly when a key file or the allocation does |
| AwgState.OtherVersion | scripts/awg_inbound.py:170-176 | a state of another version counts for nothing |
| AwgState.UpdateIsFixed | scripts/awg_inbound.py:170-210 | updated again, in any order of the users, the state is the same |
| AwgState.StayingUserKeepsOffset | scripts/awg_inbound.py:153-158 | over any history of joins, leaves and changes of key files, a user who stays keeps the offset, with whatever keys, while nobody else declares it and it fits |
| AwgState.StayingUserKeepsKeys | scripts/awg_inbound.py:190-206 | and the keys and the preshared key that were made for them, wherever the offsets go |
| AwgState.StayingUserKeepsAll | scripts/awg_inbound.py:170-210 | both together, over the same history |
| Slots.Manager.AllocateSlot | scripts/inbound_manager.py:272-281 | a user keeps a slot that counts; otherwise the first free one, or none |
| Slots.AllocatedFails | scripts/inbound_manager.py:272-281 | an allocation fails exactly when every slot is another user's |
| Slots.AllocatedApart | scripts/inbound_manager.py:272-281 | a slot given is nobody else's, and nobody else's changes |
| Slots.Manager.SetPolicy | scripts/inbound_manager.py:283-315 | refused exactly when nobody has the name, or the policy would limit and every slot is another user's; otherwise given fields are stored, unset ones gone, the rest and everyone else's as before, and a limited user has their slot or the first free one |
| Slots.SetPolicyMeaning | scripts/inbound_manager.py:283-315 | the same of the step |
| Slots.Manager.SetThenTargets | scripts/inbound_manager.py:283-315 | after a limit is accepted it is the one in force at the user's slot, whatever was declared or stored; unset, the declared one is; switched off, none is |
| Slots.Manager.CreateUser | scripts/inbound_manager.py:317-360 | refused exactly for the name or for want of a slot, before the user is made; otherwise the user is there with what is given, and a slot if that limits |
| Slots.CreateMeaning | scripts/inbound_manager.py:317-360 | the same of the step |
| Slots.Manager.DeleteUser | scripts/inbound_manager.py:362-384 | a deleted user's policy and slot go too |
| Slots.Manager.TickAll | scripts/inbound_manager.py:516-543 | a limited user keeps a slot that counts, nobody else has one after it, and who is limited and has none found every slot another user's, before the tick or after it |
| Slots.TickMeaning | scripts/inbound_manager.py:516-543 | the same of the step |
| Slots.Manager.ImportBundle | scripts/inbound_manager.py:916-980 | policies and users are taken in, one that is there already only if it is to be replaced; the limited users named all get slots, refused exactly when there is no way to give them all one beside everyone else's |
| Slots.ImportMeaning | scripts/inbound_manager.py:976-979 | whatever the order, giving them one by one succeeds whenever all of them can have one |
| Slots.Manager.SpeedTargets | scripts/inbound_manager.py:680-693 | each active limited user with a slot has their own limit there, and nothing else is |
| Slots.EffectiveMeaning | scripts/inbound_policy.py:266-273 | a user's limit is the stored one, or the declared one if nothing is stored about it |
| Slots.StepApart | scripts/inbound_manager.py:267-384 | no call makes two users share a slot |
| Slots.RunApart | scripts/inbound_manager.py:267-384 | nor does any run of calls, ticks, imports and rebuilds from an empty state |
| Slots.TickCleans | scripts/inbound_manager.py:516-543 | after a tick only limited users have slots, all of them XRay levels |
| Slots.TwoTicksSettle | scripts/inbound_manager.py:516-543 | after two, a limited user lacks one only if as many limited users as there are slots have them, and a third changes nothing |
| Slots.RunSettles | scripts/inbound_manager.py:516-543 | so it is after any run |
| Limits.LimitsScript | scripts/inbound_netfilter.py:109-131 | the lines in order: maps flushed, old limits deleted, each new limit before the element that names it |
| Limits.ScriptRuns | scripts/inbound_netfilter.py:109-131 | from any table the transaction goes through exactly when no two limited peers clash, and then holds each wanted limit, in whole bytes a second and with its burst, at its key, and nothing else |
| Limits.LimitMeaning | scripts/inbound_netfilter.py:102-106 | bits a second as whole bytes, at least one, and a burst of a quarter second, at least 64 KiB |
| Limits.ClashingPeers | scripts/inbound_netfilter.py:109-131 | two limited users with one address on an interface: it does not |
| Limits.NamesApart | scripts/inbound_netfilter.py:116-126 | the names of limits tell users, peers and directions apart, so none is added twice |
| Limits.FlushedEmpty | scripts/inbound_netfilter.py:114 | flushing the six maps leaves no element that could refer to a limit |
| Netfilter.Filter.Ensure | scripts/inbound_netfilter.py:159-165 | a table that is gone is made again, and what was installed is forgotten just then |
| Netfilter.Filter.SyncLimits | scripts/inbound_netfilter.py:175-186 | whatever is flushed or fails meanwhile, what is believed installed is in the table if there is one; without trouble the wanted limits are in it, nothing is run if they were already, and clashing ones are refused with the table as it was |
| Marks.TakenExactly | scripts/inbound_netfilter.py:22-32 | a slot's mark is a connection's exactly up to the most slots there may be |
| Marks.SurvivesZapret | scripts/inbound_netfilter.py:22-32 | with any of zapret's bits added it is still policed, as the same user |
| Marks.KeysApart | scripts/inbound_netfilter.py:22-32 | and never as another user |
| Marks.ZapretAlone | scripts/inbound_netfilter.py:22-32 | a connection only zapret marked is nobody's |
| SpeedPeers.PeerTargets | scripts/inbound_manager.py:694-710 | the loops list each limited user's addresses on every listener |
| SpeedPeers.PeersMeaning | scripts/inbound_manager.py:694-710 | a peer is listed exactly if it is a limited user's on a listener, at the user's offset in either subnet, with the user's limits |
| SpeedPeers.NoPeersClash | scripts/inbound_manager.py:694-710 | with offsets and interfaces apart no peer is limited twice |
| Fronts.FrontPorts | scripts/inbound_apply.py:148-177 | exactly the ports of the other listeners from which a chain of fallbacks reaches this one, cycles included |
| Fronts.LeadsToAddress | scripts/inbound_apply.py:148-158 | a fallback to a host and a port leads to the listener on that port exactly if the host, without brackets around it, is none, this host's or the listener's own |
| Fronts.LeadsToPort | scripts/inbound_apply.py:148-158 | one to a port leads to the listener that has it, as a number or as text |
| Fronts.LeadsToText | scripts/inbound_apply.py:148-158 | and so does a port as text |
| Fallbacks.PrunePorts | scripts/inbound_runtime.py:1020-1046 | the listeners kept are those that check out, each on a port free when its turn comes; each other has a problem recorded |
| Fallbacks.KeptPortsFacts | scripts/inbound_runtime.py:1020-1046 | kept ports are pairwise distinct and none is declared; one that checks out and goes found its port taken |
| Fallbacks.PruneFallbacks | scripts/inbound_runtime.py:1048-1068 | the loop ends; each listener dropped has a problem recorded |
| Fallbacks.SurvivorsSound | scripts/inbound_runtime.py:1048-1068 | every target of a survivor is there, fits, and is behind no other |
| Fallbacks.SupportedSurvive | scripts/inbound_runtime.py:1048-1068 | whatever is supported within itself survives, if none of it is the later of two listeners that name one target |
| Fallbacks.SurvivorsLargest | scripts/inbound_runtime.py:1048-1068 | when no target is named by two listeners, the survivors are the largest set supported within itself |
| Fallbacks.SurvivorsNotLargest | scripts/inbound_runtime.py:1048-1068 | when one is, they need not be: four listeners of which one could have stayed and does not |
| Fallbacks.MergedPorts | scripts/inbound_runtime.py:1020-1068 | after both loops ports are still apart |
| Fallbacks.ProblemsNone | scripts/inbound_runtime.py:752-770 | a fallback has no problem exactly when its target is another listener that is there, is plain vless on loopback, is reached by its own path over ws or httpupgrade if by any, and over xhttp or gRPC by REALITY, and is fronted by nobody yet |
| Numbers.NumberUsers | scripts/inbound_runtime.py:842-879 | the loop numbers the users in (order, name) sequence |
| Numbers.NumberIsLeast | scripts/inbound_runtime.py:853-861 | a number is the least from the user's order on that no declared user and no earlier runtime user has |
| Numbers.NumberingSound | scripts/inbound_runtime.py:842-879 | numbers strictly rise, none is a declared user's, and each IPv4 address is in the subnet, neither network nor broadcast |
| Numbers.LeftOut | scripts/inbound_runtime.py:859-866 | a user goes without exactly when the number found does not fit |
| Numbers.FitsMeaning | scripts/inbound_runtime.py:859-866 | a number fits exactly if it is below the subnet's last address and has four hex digits at most |
| Percent.UnquoteQuote | scripts/proxy_inbound.py:542-596 | unquoting undoes quoting, whatever the text |
| Percent.UnquoteFixed | scripts/proxy_url_parsers.py:244-284 | unquoting leaves text alone exactly when it has no escape |
| Percent.UnreservedMeaning | scripts/proxy_inbound.py:542-596 | what is left unquoted is what section 2.3 of RFC 3986 leaves so |
| Percent.UnquoteEscape | scripts/proxy_url_parsers.py:244-284 | an escape is read with digits of either case |
| Percent.QueryBack | scripts/proxy_url_parsers.py:105-106 | a query read back is the parameters that were written |
| Percent.PlusIsSpace | scripts/proxy_url_parsers.py:105-106 | a plus in a query is read as a space |
| Percent.LookupLast | scripts/proxy_url_parsers.py:105-113 | of parameters with one name the last counts |
| Base64Url.DecodeEncode | scripts/proxy_inbound.py:205-207 | decoding undoes encoding without padding, whatever the bytes |
| Base64Url.AlphabetMeaning | scripts/proxy_inbound.py:205-207 | the characters are those of section 5 of RFC 4648 |
| Base64Url.SextetsMeaning | scripts/proxy_inbound.py:205-207 | four characters stand for the digits, base 64, of what three bytes are base 256 |
| Base64Url.EitherAlphabet | scripts/proxy_url_parsers.py:657-661 | either alphabet is read |
| ShareLink.PartsBack | scripts/proxy_url_parsers.py:145-156 | a printed link comes apart into user information, server, port and query, IPv6 alone in brackets, whatever the label |
| ShareLink.VariedLookup | scripts/proxy_inbound.py:493-507 | a share variant changes the SNI if one is carried, drops the hop range if asked to, and leaves all but five parameters |
| ShareLink.TrojanBack | scripts/proxy_inbound.py:510-596 | a trojan link over TLS is parsed into the server, port and SNI it is to lead to, the password, the transport, the fingerprint and the ALPN list, the variant's where it has one |
| ShareLink.XhttpRefused | scripts/proxy_url_parsers.py:291-303 | for sing-box a trojan link over xhttp is refused |
| ShareLink.TrojanSends | scripts/proxy_inbound.py:412-507 | a trojan link says tls, with the fingerprint, the ALPN list and the xhttp mode of the listener dialled, or of the variant where it has them |
| ShareLink.PlainSends | scripts/proxy_inbound.py:430-466 | behind a front without TLS it says none, and names no server |
| ShareLink.AlpnBack | scripts/proxy_url_parsers.py:378-380 | a list of names comes back as it was |
| ShareLink.PathBack | scripts/proxy_url_parsers.py:243-284 | the path is the listener's exactly when it is not empty and has no escape in it |
| ShareLink.EscapedPath | scripts/proxy_url_parsers.py:243-284 | /%41 comes back as /A |
| ShareLink.ServiceNameBack | scripts/proxy_url_parsers.py:251-255 | so is gRPC's service name, empty or not |
| ShareLink.Hysteria2Back | scripts/proxy_url_parsers.py:789-825 | a hysteria2 link gives back the server, port and SNI it is to lead to, password, obfs password and hop range |
| ShareLink.RangesBack | scripts/proxy_url_parsers.py:820-823 | of several ranges joined by commas all are read, or none if one cannot be |
| ShareLink.LonePort | scripts/proxy_url_parsers.py:780-787 | a lone port is a range of one |
| ShareLink.HysteriaLookup | scripts/proxy_inbound.py:570-584 | and says them, and the ALPN list of the variant, of the listener, or h3 |
| ShareLink.ShadowsocksBack | scripts/proxy_url_parsers.py:737-777 | a shadowsocks link gives back the server and port it is to lead to, cipher and secret, the server's and the user's key for several users |
| ShareLink.SsUserinfoBack | scripts/proxy_url_parsers.py:651-665 | either form of the user information is told from the other and read back, plain text for the ciphers of 2022 alone |
| ShareLink.PaddedBack | scripts/proxy_url_parsers.py:657-664 | in base64 it is read with any padding |
| ShareLink.LegacyBack | scripts/proxy_url_parsers.py:752-765 | a link all in base64 gives server, port and cipher, and its secret unquoted once |
| ShareLink.LabelBack | scripts/proxy_inbound.py:546-552 | whatever the characters, the label that clients show is the tag, the variant, the user's name or number, and whether it is the onion's |
| AwgConfig.LinesUnlines | scripts/amneziawg_config.py:374-384 | lines joined and split again are the same lines |
| AwgConfig.MatchesMeaning | scripts/amneziawg_config.py:376-382 | the rewriters' pattern matches exactly the lines with a word that folds to that key before their first = |
| AwgConfig.ReaderAgrees | scripts/amneziawg_config.py:531-544 | of the lines the rewriters take for a key, the reader finds it on exactly those whose key has no letter that only they fold, comments or not, and on no other line |
| AwgConfig.MatchesRead | scripts/amneziawg_config.py:376-382 | the rewriters take a line for a key exactly when the key the reader finds folds to it |
| AwgConfig.AsciiPlain | scripts/amneziawg_config.py:783-788 | no key that passed the check has such a letter |
| AwgConfig.HeaderRead | scripts/amneziawg_config.py:762-780 | a header that passed the check is that section's to the reader |
| AwgConfig.NoHeader | scripts/amneziawg_config.py:531-544 | a line the rewriters take for no header is none to the reader |
| AwgConfig.ConfSections | scripts/amneziawg_config.py:531-544 | the reader's loop: each pair goes into the section opened last |
| Text.SpaceMeaning | scripts/amneziawg_config.py:531-544 | what is stripped around a line, a key and a value: Python's white space, by its codes |
| AwgOutbound.RemoveInterfaceKey | scripts/amneziawg_config.py:374-384 | the loop leaves out the interface's lines with the key |
| AwgOutbound.RemoveRead | scripts/amneziawg_config.py:374-384 | to the reader, the interface loses the pairs whose key folds to that one and nothing else changes |
| AwgOutbound.TextHosts | scripts/amneziawg_config.py:412-422 | the loop over an Address' items parses each that is not blank, or fails on one that is no address |
| AwgOutbound.ListNarrowed | scripts/amneziawg_config.py:412-422 | a list of items narrows to the list of what each of them narrows to, in order, and only if all are addresses |
| AwgOutbound.HostAddresses | scripts/amneziawg_config.py:399-423 | the loop narrows the interface's addresses, or fails on one that is none |
| AwgOutbound.NarrowRead | scripts/amneziawg_config.py:399-423 | to the reader, each address of the interface's as written is narrowed and nothing else changes; it fails exactly when one of them does |
| AwgOutbound.SetInterfaceValue | scripts/amneziawg_config.py:348-371 | the first line with the key is replaced, or a new one put at the end of the interface's |
| AwgOutbound.SetRead | scripts/amneziawg_config.py:348-371 | to the reader, a key that was not there is the interface's last pair |
| AwgOutbound.DropPrivilegedListenPort | scripts/amneziawg_config.py:432-438 | the loop drops every ListenPort if one of them is privileged or no port |
| AwgOutbound.UnprivilegedMeaning | scripts/amneziawg_config.py:435-437 | a port may stay exactly if it is a number from 1024 on, after any zeros |
| AwgOutbound.AsOutbound | scripts/amneziawg_config.py:441-453 | the loops composed give the rewriting that `OutboundReads` and `OutboundSucceeds` are about, and fail where it does |
| AwgOutbound.OutboundSucceeds | scripts/amneziawg_config.py:441-453 | a configuration that passes the check is rewritten exactly when, if addresses are to be narrowed, every item of the interface's that is not blank is an address |
| AwgOutbound.OutboundReads | scripts/amneziawg_config.py:441-453 | for every configuration that passes the check, hooks allowed or not, and every key: the reader then sees no DNS, exactly one Table and one FwMark, no privileged ListenPort, the addresses as written narrowed, every key that folds to none of these as it was and in order, and the peers untouched |
| AwgOutbound.OthersKept | scripts/amneziawg_config.py:441-453 | every other key is as it was exactly when none that only folds to one of these is lost or narrowed |
| AwgOutbound.AsciiOthersPlain | scripts/amneziawg_config.py:783-788 | so it is wherever hooks are not allowed |
| AwgOutbound.LongSConfig | scripts/amneziawg_config.py:374-384 | a configuration that passes with hooks, and loses a key with a long s |
| AwgOutbound.AddressesAsRead | scripts/amneziawg_config.py:399-423 | they are the addresses the reader saw before, narrowed, exactly when no semicolon cuts one to another host or hides one |
| AwgOutbound.ScopedConfig | scripts/amneziawg_config.py:399-423 | a configuration where one does |

## Left out

- QrCode.QrMatrixOf: how a mask's penalty is reckoned; it is any function of the matrix, so the result holds for each.
- Apply.ChangeApplies: which sessions are cut when a user goes, in what order, and those of users whose level alone changed.
- Apply.Host.RunSteps: an address whose deletion fails lingers; the contract says which addresses can.
- Apply.Host.ApplyXray: a crash in the middle of an apply, a restart that fails, and sing-box certificates swapped for copies.
- Reconcile.RestartMeaning: the order and the wording of a restart's reasons.
- ConfigFile.SyncConfig: a config.json that cannot be written; what is in it besides listeners, rules and outbounds is not looked at.
- Metering.Account.Collect: a change of the system's time zone, counters that are no numbers, and clocks that go back; the day and the time of one collection are the same instant's.
- Periods.MonthlyBoundary: times are whole seconds, and the last year a Python date has is not special.
- SubscriptionCheck.Checker.RunBackend: the backend's error texts and the clock; a run that cannot finish is one outcome.
- AwgAddresses.AllocateAddresses: the text of addresses and subnets, which are numbers with a family here.
- AwgAddresses.BindUsers: the other reasons a runtime user is not put on a listener.
- AwgState.UpdateState: a key tool that fails, and state files whose entries are not of the kinds the program writes.
- Slots.Manager.TickAll: runtime users that are purged at a tick's end, long expired; a slot freed so is given at the tick after, which `Slots.RunSettles` does not count as settled yet.
- Slots.Manager.SetPolicy: how a field's value is read and refused; hosts without nftables or without speed limits, where the manager refuses the field, are not modelled.
- Slots.Manager.ImportBundle: the checks of a bundle before it is taken in.
- Netfilter.Filter.SyncLimits: an nft run that is killed by its timeout after its transaction went in; bans and the sets that hold them.
- Marks.TakenExactly: which packets the chains look at; the lemmas are about the marks.
- Fronts.FrontPorts: ports and tags of other JSON types than numbers and text.
- Fallbacks.PrunePorts: the checks of one listener's own fields and of ports in use on the host, which are a given list of problems.
- Fallbacks.SurvivorsSound: listeners without users, which are left out after that loop.
- ShareLink.TrojanBack: REALITY, and which fingerprints, ALPN lists and xhttp modes a backend accepts.
- ShareLink.ShadowsocksBack: which ciphers and keys a backend accepts; SIP003 plugins; base64 with characters in neither of its alphabets, which Python drops, and with padding inside.
- ShareLink.Hysteria2Back: certificate pins.
- ShareLink.PartsBack: text is its UTF-8 bytes; bytes that are no UTF-8, which Python replaces, do not come from a printed link.
- AwgConfig.ReaderAgrees: upper and lower case outside ASCII, but for the letters that fold into it.
- AwgOutbound.NarrowRead: which texts are addresses; the parser is any function whose result has but digits, a to f, colons, dots and a slash.
- vless, vmess, socks, http, TUIC and AnyTLS links: printed and parsed the same ways, with more fields.
- as_wireproxy, fill_obfuscation and the decoding of vpn:// links: rewriting and decoding of the same kind.
- HTTP, webhooks, signals, systemd, file permissions and locking: plumbing; a save is one atomic step.
