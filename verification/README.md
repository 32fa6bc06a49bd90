# Verified models of five KasperskyOS example components

The repository is a collection of example programs. This project models the parts that hold an
algorithm or a protocol, and proves what they promise for all inputs, all runs or all reachable states.

* **SMS PDU encoder** (`Bytes.dfy`, `SemiOctets.dfy`, `Septets.dfy`, `SmsPdu.dfy`). `AsciiToPDU` writes an
  SMS-SUBMIT PDU into a byte array in place. A decoder written from sections 9.1.2.3, 9.1.2.5 and 9.2.2.2 of
  3GPP TS 23.040 and section 6.1.2.1 of 3GPP TS 23.038 is its partner: decoding undoes encoding, inside any
  longer byte string. The bit-by-bit packing loop is shown to be a change of base from 128 to 256. The buffer
  sizes for which the encoder writes past its end are determined exactly.
* **JPEG length finder** (`Jpeg.dfy`, `JpegLanguage.dfy`). `GetJpegSize` walks the markers of an arbitrary
  buffer. It is measured against a grammar of images after sections B.1.1.2 to B.1.1.5 of ITU-T T.81. The code
  never uses the length of the SOS header but scans through it, so in the grammar the scan begins right after
  the SOS marker. `JpegLanguage.dfy` adds the lenient grammar of exactly those byte strings that the walk takes
  for an image.
* **Asynchronous resolver and callable handle** (`ResolverProtocol.dfy`, `CompletionSteps.dfy`,
  `CallableSystem.dfy`, `Monitors.dfy`). Two mutex/condition-variable monitors joined by IPC, as step relations
  over threads with program counters. `CompletionSteps.dfy` splits `OnResolved`, which takes no lock, into the
  move of the callback and its call; `Monitors.dfy` holds the two objects and ties each mutex-protected block
  to its step.
* **Busy/retry protocol** (`BusyRetry.dfy`). Two servers, any number of clients, and the policy limit on
  `repeats` as a parameter.
* **Two `getline` lookups** (`KeyValue.dfy`) over one model of a string stream.

## Main results

* `SmsPdu.RoundTrip`, `SmsPdu.PduDeterminesMessage`, `SmsPdu.AsciiToPDU`: whatever the encoder accepts, the
  decoder recovers, and it stops exactly at the returned length; the result is -1 in exactly the stated cases.
  `AcceptedExactly` and `WrittenExactly` say both in octets, `ShippedMessage` for the documented example.
* `SmsPdu.AsciiToPDU`, `TwentyOctetsSuffice`, `FewerThanTwentyDoNot`: that no write falls behind the buffer is
  false of the code. It holds if and only if `UncheckedWritesFit`, a condition on the arguments; with 20 octets
  that is always met, and for each smaller size that passes the entry guard a call overwrites an octet behind.
* `Jpeg.MeasureImage`, `Jpeg.MeasureCropped`: every image of the grammar is measured exactly whatever follows
  it; on any buffer at all, measuring the stored prefix again gives the same length.
* `JpegLanguage.MeasureRecognises`: the walk answers a length if and only if the buffer begins with a word of
  that length in the lenient grammar, which is written in octets.
* `ResolverProtocol.ExactlyOnce`, `BlockedWorkerWillBeNotified`, `WorkerLeavesClean`,
  `DestroyedMeansAllAnswered`, `CanAlwaysShutDown`, `CanAlwaysIdle`: safety of every interleaving, deadlock
  freedom, and a worker that blocks exactly when there is nothing to do.
* `CompletionSteps.RefinesOneStep`, `EveryRunSplits`, `CalledOnce`, `OwnNodeStays`, `SweepTakesOpenNodes`:
  splitting a completion neither adds nor removes behaviour, and loses no call. The node, from which a failed
  lookup reads the host name, is still there when the worker or the destructor drives the completion; for a
  completion inside `ares_gethostbyname` it is there until the worker's next sweep, and `SweptBeforeCalled` is a
  run in which the sweep comes first.
* `CallableSystem.JoinReturnsIffNoEmptyName`, `CanAlwaysJoin`, `CanAlwaysHang`, `HungForever`: the client's
  `join` can return if and only if no name is empty. When the resolver throws on an empty name
  (`examples/c-ares/resolver/src/resolver.cpp:175-178`), the handler that `Get()` had already queued waits for a
  call that never comes; every run can then be led into this hang, and none leaves it.
* `BusyRetry.RetryLoop`, `ProcessRequest`, `AnswersTheRequest`, `SystemProgress`, `RetryBounds`,
  `InterferenceCanRefuse`: which attempt of a request meets which server and ends it, whatever other clients do
  in between, and bounds on busy replies and attempts. The shipped limit is 1
  (`examples/errors_via_ipc/einit/src/security.psl:113-114`): an undisturbed client is then refused exactly when
  both servers are about to report busy; from limit 2 on it never is, but interference by other clients can
  drive a request into refusal under any limit below 2^32 - 1.

## Assumptions of the concurrent models

* A mutex-protected block, a c-ares call and a `notify_one` are one step each; `wait` releases the mutex and
  blocks in one step. Spurious wake-ups are allowed everywhere, and never needed.
* In `ResolverProtocol` one run of `OnResolved` is one step, although the code takes no lock there.
  `CompletionSteps` justifies this: its moment is the move of the callback, which is itself taken to be atomic
  with respect to the sweep. The read of the host name is the one thing a sweep in between can disturb.
* c-ares holds a set of pending queries and completes each once: inside `ares_gethostbyname`, while the worker
  serves, or in `ares_destroy`.
* No call of `AddRequest` is in flight when `ares_destroy` begins, and none starts afterwards.
* In the composition the resolver stays up, has one client, an `OnResolve` call is a rendezvous with
  `loop.Step()`, and a `Resolve` call fails for an empty name only.
* A client of the busy/retry protocol sees only sum, busy and policy refusal; a refused request reaches no server.

## Model

| member | source | states |
|---|---|---|
| SemiOctets.NumberToNibbles | examples/cellular/mbim_sms/client/src/main.c:29-49 | succeeds exactly on all-decimal input with ceil(n/2), writes the swapped semi-octets whatever was there before, and touches no octet outside the range it reports, on failure too |
| SemiOctets.PutDigit | examples/cellular/mbim_sms/client/src/main.c:35-46 | one loop turn turns the encoding of the first i digits into that of the first i+1 |
| SemiOctets.EncodeAppend | examples/cellular/mbim_sms/client/src/main.c:42-45 | a further digit opens an octet filled with 0xF or completes the last one |
| SemiOctets.DecodeEncode | examples/cellular/mbim_sms/client/src/main.c:29-49 | reading the halves back and dropping the filler gives the digits |
| Septets.PackBits | examples/cellular/mbim_sms/client/src/main.c:151-170 | bit k of the packed data is bit k%7 of character k/7, and padding bits are zero |
| Septets.UnpackPack | examples/cellular/mbim_sms/client/src/main.c:148-171 | unpacking returns the low seven bits of every character |
| Septets.PackedOctet | examples/cellular/mbim_sms/client/src/main.c:151-170 | an octet that begins at bit r of a character holds the high bits of that character and above them the low r+1 bits of the next |
| Septets.PackGroup | examples/cellular/mbim_sms/client/src/main.c:151-170 | in numbers: every eight characters become seven given octets, and a last group of seven is filled up with a zero |
| Septets.PackIsChangeOfBase | examples/cellular/mbim_sms/client/src/main.c:161-170 | the octets in base 256 and the septets in base 128, both little-endian, are one number |
| Septets.PackIsTheOnlyChangeOfBase | examples/cellular/mbim_sms/client/src/main.c:151-170 | an octet string of the right length is the packed text if and only if it has that value |
| Septets.OrKeepsWritten | examples/cellular/mbim_sms/client/src/main.c:167-168 | or-ing stream bit k in fixes that bit and moves no other |
| Septets.OrStreamBit | examples/cellular/mbim_sms/client/src/main.c:165-169 | the inner-loop statement advances the written stream by one bit, inside the region |
| Septets.Clear | examples/cellular/mbim_sms/client/src/main.c:161 | the region becomes zero and nothing else changes |
| Septets.PackInto | examples/cellular/mbim_sms/client/src/main.c:150-170 | after the nested loops the region holds the packed text and nothing outside it changed |
| SmsPdu.AsciiToPDU | examples/cellular/mbim_sms/client/src/main.c:58-175 | the result is the closed-form length or -1, -1 exactly when an argument is missing, a number is not at most 12 digits, the text exceeds 160 or the buffer is too small (in octets: `SmsPdu.AcceptedExactly`); the prefix is the PDU (in octets: `SmsPdu.WrittenExactly`); nothing behind the highest octet written changes; that octet is inside the buffer if and only if `UncheckedWritesFit`, and never more than two behind |
| SmsPdu.SpelledNumber | examples/cellular/mbim_sms/client/src/main.c:74-82 | a string passes for a number exactly if it is at most twelve octets in 48..57, with or without one octet 43 before them |
| SmsPdu.AcceptedExactly | examples/cellular/mbim_sms/client/src/main.c:58-160 | accepted exactly are: non-null dest and text, at least 9 octets of buffer, at most 160 characters, numbers of at most twelve octets in 48..57 after an optional 43, and room for the PDU |
| SmsPdu.WrittenExactly | examples/cellular/mbim_sms/client/src/main.c:68-174 | with and without a 43 before either number the PDU is the same: 00 or the service centre of type 91, then 01 00, the digit count, 91, the digits, 00 00, the text length and the packed text |
| SmsPdu.ShippedMessage | examples/cellular/mbim_sms/expected_output:2 | the documented 35 octets are what the encoder writes for the documented number and text |
| SmsPdu.PutServiceCentre | examples/cellular/mbim_sms/client/src/main.c:68-103 | the service-centre block, the default one for a null pointer, or -1 on a bad number; always inside the buffer |
| SmsPdu.PutTpdu | examples/cellular/mbim_sms/client/src/main.c:105-174 | everything after the service centre is appended to what stands before it, or -1; the highest octet written is in the buffer exactly under `UncheckedTpduWritesFit` |
| SmsPdu.PutDestination | examples/cellular/mbim_sms/client/src/main.c:111-141 | digit count, type and semi-octets appended, or -1 on a bad number or short buffer, with the highest octet written in each case |
| SmsPdu.PutUserData | examples/cellular/mbim_sms/client/src/main.c:147-172 | length and packed text appended, or -1 with the buffer unchanged |
| SmsPdu.DecodeScaBytes | examples/cellular/mbim_sms/client/src/main.c:68-103 | the decoder finds the service centre, or its absence, and where it ends |
| SmsPdu.DecodeTpduBytes | examples/cellular/mbim_sms/client/src/main.c:105-174 | the decoder recovers destination, septets and length of the TPDU before any trailing bytes |
| SmsPdu.RoundTrip | examples/cellular/mbim_sms/client/src/main.c:58-175 | decoding a PDU followed by anything gives back the message and consumes exactly the returned length |
| SmsPdu.PduDeterminesMessage | examples/cellular/mbim_sms/client/src/main.c:58-175 | two messages that differ in service centre, destination or a septet never share a PDU, nor is one a prefix of the other |
| SmsPdu.TwentyOctetsSuffice | examples/cellular/mbim_sms/client/src/main.c:65-145 | with 20 octets the encoder stays inside the buffer for every input |
| SmsPdu.OverrunningInput | examples/cellular/mbim_sms/client/src/main.c:65-145 | for every smaller buffer that passes the entry guard, an input for which the encoder does not stay inside |
| SmsPdu.FewerThanTwentyDoNot | examples/cellular/mbim_sms/client/src/main.c:65-145 | running the encoder on that input changes an octet behind the buffer, so 20 is exact |
| Jpeg.GetJpegSize | examples/uvc_camera_stills/client/src/main.c:142-197 | the nested loops compute the walk, with all reads in range, and terminate; what the walk accepts is said in octets by `JpegLanguage.MeasureRecognises` |
| Jpeg.MeasureEndsAtEoi | examples/uvc_camera_stills/client/src/main.c:157-196 | on any buffer the answer is 0 or r <= size with 0xD9 as its last octet |
| Jpeg.ScanEndCropped | examples/uvc_camera_stills/client/src/main.c:167-182 | cropping behind the end of a scan does not move that end |
| Jpeg.MeasureCropped | examples/uvc_camera_stills/client/src/main.c:157-221 | measuring the first r octets again gives r, through length fields of 0 and 1 too |
| Jpeg.SkipFill | examples/uvc_camera_stills/client/src/main.c:159-165 | any number of fill bytes before a marker is passed over |
| Jpeg.SkipEntropy | examples/uvc_camera_stills/client/src/main.c:168-179 | the inner loop passes over stuffed bytes and restart markers |
| Jpeg.MeasureBody | examples/uvc_camera_stills/client/src/main.c:159-189 | after a marker code the walk goes past its payload, or into its scan |
| Jpeg.OpenScanMeetsMarker | examples/uvc_camera_stills/client/src/main.c:168-182 | an open scan ends at a real marker and only absorbs a lone restart marker |
| Jpeg.MeasureImageAt | examples/uvc_camera_stills/client/src/main.c:157-194 | wherever an image stands, both loops started at its first octet lead to its end |
| Jpeg.MeasureImage | examples/uvc_camera_stills/client/src/main.c:142-197 | for every image of the grammar and every trailing garbage the result is the image's length |
| Jpeg.ImagesAreSelfDelimiting | examples/uvc_camera_stills/client/src/main.c:142-197 | a buffer begins with at most one image |
| Jpeg.SaveMJPEG | examples/uvc_camera_stills/client/src/main.c:199-221 | fails exactly when no length is found; else stores a self-measuring prefix, and the image itself if the buffer begins with one |
| JpegLanguage.MeasureToken | examples/uvc_camera_stills/client/src/main.c:157-189 | each token of the lenient grammar is one step of the outer loop |
| JpegLanguage.MeasureEnding | examples/uvc_camera_stills/client/src/main.c:157-194 | both endings, the EOI code and an unfinished scan at the end of the buffer, give the length |
| JpegLanguage.ScanStops | examples/uvc_camera_stills/client/src/main.c:167-182 | what the inner loop has seen when it stops, on any buffer |
| JpegLanguage.NextToken | examples/uvc_camera_stills/client/src/main.c:157-189 | where the walk will find an end, the octets passed by one step are a token that fits what follows |
| JpegLanguage.UnfinishedScan | examples/uvc_camera_stills/client/src/main.c:167-196 | a scan that no 0xFF ends gives a length only if the buffer ends in the EOI code |
| JpegLanguage.MeasureWord | examples/uvc_camera_stills/client/src/main.c:142-197 | every word of the lenient grammar, wherever it stands, is measured exactly |
| JpegLanguage.MeasuredIsWord | examples/uvc_camera_stills/client/src/main.c:142-197 | whatever is measured is a word of the lenient grammar |
| JpegLanguage.MeasureRecognises | examples/uvc_camera_stills/client/src/main.c:142-197 | the walk answers r if and only if the first r octets are a word of a grammar written in octets; length fields 0 and 1 and codes without 0xFF included |
| JpegLanguage.MeasureOctets | examples/uvc_camera_stills/client/src/main.c:142-197 | FF D8, segments FF c hi lo and payload, FF DA, data in which 00 or D0..D7 follows each FF, and FF D9 are measured exactly before any garbage |
| ResolverProtocol.EnqueueKeepsInv | examples/c-ares/resolver/src/resolver.cpp:66-70 | a new node keeps list order, query/node correspondence and conservation |
| ResolverProtocol.SubmitKeepsInv | examples/c-ares/resolver/src/resolver.cpp:71 | so does handing the query to c-ares, completed at once or left pending |
| ResolverProtocol.AddNotifyKeepsInv | examples/c-ares/resolver/src/resolver.cpp:72 | so does the notification, which discharges the wake-up it owes |
| ResolverProtocol.CheckKeepsInv | examples/c-ares/resolver/src/resolver.cpp:52-62 | so does the sweep with its decision to block, serve or leave |
| ResolverProtocol.ResolvedKeepsInv | examples/c-ares/resolver/src/resolver.cpp:20-39 | a completion finds its node live and armed, and answers it for the first time |
| ResolverProtocol.DisarmCounts | examples/c-ares/resolver/src/resolver.cpp:24 | moving a callback out removes exactly one node from the next sweep |
| ResolverProtocol.StepKeepsInv | examples/c-ares/resolver/src/resolver.cpp:20-171 | every step of every thread keeps the invariant |
| ResolverProtocol.RunKeepsInv | examples/c-ares/resolver/src/resolver.cpp:20-171 | so every reachable state satisfies it |
| ResolverProtocol.ExactlyOnce | examples/c-ares/resolver/src/resolver.cpp:20-73 | in every run no callback fires twice or into a dead node, pending queries point to armed nodes, and answered plus live requests are all requests |
| ResolverProtocol.AnswersGrow | examples/c-ares/resolver/src/resolver.cpp:20-39 | along a run answers are only appended |
| ResolverProtocol.SweepRemovesAnsweredOnly | examples/c-ares/resolver/src/resolver.cpp:53-54 | no node is swept before its callback fired |
| ResolverProtocol.BlockedWorkerWillBeNotified | examples/c-ares/resolver/src/resolver.cpp:50-82 | a worker blocked on a true predicate has a thread that still owes `notify_one` |
| ResolverProtocol.WorkerDecides | examples/c-ares/resolver/src/resolver.cpp:50-82 | a look at the list blocks exactly when it is empty and the resolver active, serves exactly when it is not empty and leaves otherwise; no other step does any of these, and a blocked worker moves exactly when it is woken |
| ResolverProtocol.ServingHasRequests | examples/c-ares/resolver/src/resolver.cpp:50-62 | in every reachable state a serving worker has requests in its list |
| ResolverProtocol.AddRequestRuns | examples/c-ares/resolver/src/resolver.cpp:64-73 | until the worker is joined any thread can run `AddRequest` through by its own steps; its request is then answered or pending and the worker is not blocked |
| ResolverProtocol.WorkerLeavesClean | examples/c-ares/resolver/src/resolver.cpp:50-62 | the worker leaves only after shutdown was requested, with an empty list and every request so far answered |
| ResolverProtocol.DestroyedMeansAllAnswered | examples/c-ares/resolver/src/resolver.cpp:160-171 | after the destructor each request ever enqueued was answered exactly once |
| ResolverProtocol.CheckAdvances | examples/c-ares/resolver/src/resolver.cpp:53-61 | with nobody submitting, the sweep empties the list exactly when no query is pending |
| ResolverProtocol.CanAlwaysShutDown | examples/c-ares/resolver/src/resolver.cpp:75-171 | from every reachable state the destructor can finish without a spurious wake-up |
| ResolverProtocol.CanAlwaysIdle | examples/c-ares/resolver/src/resolver.cpp:50-148 | from every reachable state without a shutdown the worker can come to rest in its wait with every request answered, without a spurious wake-up |
| CompletionSteps.RefinesOneStep | examples/c-ares/resolver/src/resolver.cpp:20-39 | every run with two-step completions is a run of the one-step protocol with the same fields, program counters and answers |
| CompletionSteps.EveryRunSplits | examples/c-ares/resolver/src/resolver.cpp:20-39 | conversely every run of the one-step protocol is a two-step run to the same state |
| CompletionSteps.NodeKept | examples/c-ares/resolver/src/resolver.cpp:20-82 | no step but the sweep takes a node out of the list |
| CompletionSteps.MoveKeepsInv | examples/c-ares/resolver/src/resolver.cpp:23-24 | moving a callback out opens one completion for a request never answered before |
| CompletionSteps.DeliverKeepsInv | examples/c-ares/resolver/src/resolver.cpp:25-38 | calling it closes the completion and delivers it for the first time |
| CompletionSteps.OtherKeepsInv | examples/c-ares/resolver/src/resolver.cpp:50-171 | steps of other threads in between keep that, and the nodes of the worker and the owner |
| CompletionSteps.RunKeepsInv | examples/c-ares/resolver/src/resolver.cpp:20-171 | so every reachable state satisfies it |
| CompletionSteps.CalledOnce | examples/c-ares/resolver/src/resolver.cpp:20-39 | in every interleaving no callback is called twice, and an answer not yet called is open |
| CompletionSteps.DestroyedMeansAllCalled | examples/c-ares/resolver/src/resolver.cpp:160-171 | after the destructor each request ever enqueued was called back exactly once |
| CompletionSteps.OwnNodeStays | examples/c-ares/resolver/src/resolver.cpp:24-38 | a completion driven by the worker or the destructor still has its node when it calls |
| CompletionSteps.SweepTakesOpenNodes | examples/c-ares/resolver/src/resolver.cpp:36-54 | an open completion loses its node in the sweep, and in no other step |
| CompletionSteps.SweptBeforeCalled | examples/c-ares/resolver/src/resolver.cpp:24-71 | a run in which the worker sweeps the node of a completion inside `ares_gethostbyname` before it calls |
| Monitors.UnansweredIsSwept | examples/c-ares/resolver/src/resolver.cpp:53-54 | keeping the requests with a callback is the sweep of the protocol, and keeps no other and loses none |
| Monitors.DisarmOne | examples/c-ares/resolver/src/resolver.cpp:24 | clearing one callback is the disarming of the protocol, since no two nodes share an identity |
| Monitors.Resolver.constructor | examples/c-ares/resolver/src/resolver.h:31-34 | a new resolver is the initial state of the protocol, where its invariant holds |
| Monitors.Resolver.RemoveAnswered | examples/c-ares/resolver/src/resolver.cpp:53-54 | the loop keeps exactly the requests whose callback is set, in order, with their names |
| Monitors.Resolver.EnterHasRequests | examples/c-ares/resolver/src/resolver.cpp:50-62 | the block takes the fields along the check of the protocol; it keeps the requests with a callback, then blocks exactly on an empty list of an active resolver, serves exactly on a list that is not empty, and leaves otherwise |
| Monitors.Resolver.WakeInHasRequests | examples/c-ares/resolver/src/resolver.cpp:58-61 | after a wake-up it blocks again exactly on an empty list of an active resolver, serves exactly on a list that is not empty, and leaves otherwise |
| Monitors.Resolver.Emplace | examples/c-ares/resolver/src/resolver.cpp:67-70 | the critical section is the enqueue of the protocol and keeps its invariant; the pointer kept is the last node, with the name given |
| Monitors.Resolver.OnResolved | examples/c-ares/resolver/src/resolver.cpp:20-39 | for a query c-ares still holds the node exists with its callback set; one answer goes out, with the name and address found or else the name of the request and "Lookup failed"; no other node changes |
| Monitors.Resolver.Deactivate | examples/c-ares/resolver/src/resolver.cpp:77-80 | the critical section is the shutdown of the protocol and keeps its invariant; from then on the check never blocks |
| Monitors.Callable.constructor | examples/c-ares/common/callable.h:62-96 | for every list of names a new callable is the initial state of the composed system, where its invariant holds |
| Monitors.Callable.AddHandler | examples/c-ares/common/callable.h:39-46 | the critical section is the push of a step or of the sentinel, and keeps the invariant of the system |
| Monitors.Callable.GetHandler | examples/c-ares/common/callable.h:48-58 | blocks on an empty queue; otherwise takes the handler of the oldest `Get()` not yet fetched, or the sentinel after all of them |
| CallableSystem.TakeKeepsInv | examples/c-ares/common/callable.h:48-58 | taking a handler keeps the FIFO order and the sentinel last |
| CallableSystem.MainStepKeepsInv | examples/c-ares/client/src/main.cpp:54-61 | the main thread's pushes, notifications, returns and join keep the system invariant |
| CallableSystem.CallKeepsInv | examples/c-ares/client/src/main.cpp:59 | so does a `Resolve`, accepted or rejected |
| CallableSystem.ResolverStepKeepsInv | examples/c-ares/resolver/src/resolver.cpp:20-148 | so does every resolver step, with one served call per fired callback |
| CallableSystem.SystemStepKeepsInv | examples/c-ares/common/callable.h:31-111 | every step of client and resolver together keeps the invariant |
| CallableSystem.SystemRunKeepsInv | examples/c-ares/common/callable.h:31-111 | so every reachable state of the composition satisfies it |
| CallableSystem.JoinedMeansEveryGetServed | examples/c-ares/common/callable.h:98-111 | `join` returns only if no name is empty and after exactly one `OnResolve` per `Get()` was served, in FIFO order, with nothing left behind the sentinel |
| CallableSystem.BlockedServerWillBeNotified | examples/c-ares/common/callable.h:39-58 | the serving thread is blocked with work queued only while the pusher still owes its `notify_one` |
| CallableSystem.CallbackIsServed | examples/c-ares/common/callable.h:31-37 | a callback, from inside `Resolve` or from the worker, is served by the next handler in line and answers its request for the first time |
| CallableSystem.AnswerIsComing | examples/c-ares/resolver/src/resolver.cpp:50-73 | while the client waits in `join` and an accepted request is unanswered, a query is pending and the worker is neither blocked nor gone |
| CallableSystem.Advance | examples/c-ares/common/callable.h:31-111 | unless the client has finished or hangs, some step other than a spurious wake-up brings it closer to one of the two |
| CallableSystem.HungStep | examples/c-ares/common/callable.h:31-37 | when main is in `join` and the server holds the handler of the rejected name, no step moves either |
| CallableSystem.HungForever | examples/c-ares/common/callable.h:98-105 | so no run leaves that state |
| CallableSystem.CanAlwaysSettle | examples/c-ares/client/src/main.cpp:52-61 | from every reachable state the client can finish or hang, whatever the names |
| CallableSystem.CanAlwaysJoin | examples/c-ares/client/src/main.cpp:52-61 | if no name is empty the client can finish from every reachable state without a spurious wake-up |
| CallableSystem.CanAlwaysHang | examples/c-ares/resolver/src/resolver.cpp:173-178 | if a name is empty the client can hang from every reachable state |
| CallableSystem.JoinReturnsIffNoEmptyName | examples/c-ares/client/src/main.cpp:57-60 | a run in which `join` returns exists if and only if no name is empty |
| CallableSystem.OneEmptyNameHangs | examples/c-ares/resolver/src/resolver.cpp:173-178 | for the single argument "" a run hangs, and `join` returns in none |
| BusyRetry.CounterParity | examples/errors_via_ipc/server_c/src/server.c:27-54 | past 64-bit wrap-around the counter keeps the parity of the requests dispatched |
| BusyRetry.RepliesAlternate | examples/errors_via_ipc/server_cpp/src/server.cpp:29-33 | deciding by the counter gives a sum on the n-th request exactly when n is even |
| BusyRetry.CServer.constructor | examples/errors_via_ipc/server_c/src/server.c:27 | the counter starts at 1, nothing dispatched |
| BusyRetry.CServer.SumRequest | examples/errors_via_ipc/server_c/src/server.c:29-57 | the n-th request gets busy for odd n, and for even n the sum of its operands modulo 2^32, for every n |
| BusyRetry.CxxServer.constructor | examples/errors_via_ipc/server_cpp/src/server.cpp:37 | the counter starts at 1, nothing dispatched |
| BusyRetry.CxxServer.SumRequest | examples/errors_via_ipc/server_cpp/src/server.cpp:21-34 | the same, though the increment precedes the reply |
| BusyRetry.ServersAgree | examples/errors_via_ipc/server_cpp/src/server.cpp:21-37 | on every request sequence the two servers give the same replies |
| BusyRetry.ProcessRequest | examples/errors_via_ipc/client_cpp/src/client.cpp:42-72 | without interference: at most three attempts, alternating between the servers, each but a refused one dispatched; refused exactly when repeats and the busy replies to come exceed the limit, else the sum of the operands modulo 2^32 |
| BusyRetry.Ask | examples/errors_via_ipc/client_c/src/client.c:119-120 | an attempt reaches the server it is for and no other, or neither if the policy refuses it, exactly when `repeats` exceeds the limit |
| BusyRetry.RefusedAloneFromScratch | examples/errors_via_ipc/client_cpp/src/client.cpp:100-103 | a fresh request is never refused from limit 2 on; under limit 1 exactly when both servers are about to be busy |
| BusyRetry.RetryLoop | examples/errors_via_ipc/client_c/src/client.c:110-153 | for every interference before each attempt: attempts alternate between the servers, the first that meets an even number of requests dispatched ends the loop with the sum modulo 2^32, refused exactly when none of the first limit+1 does; what each server has dispatched in the end |
| BusyRetry.AskAmongOthers | examples/errors_via_ipc/client_c/src/client.c:117-137 | one attempt after any number of other requests: what its server had dispatched decides the reply, and only that server counts it |
| BusyRetry.NextAttempt | examples/errors_via_ipc/client_c/src/client.c:117-137 | after n busy attempts, attempt n meets the requests its server started with, those of other clients and n/2 of its own |
| BusyRetry.StepKeepsInv | examples/errors_via_ipc/client_c/src/client.c:112-152 | every attempt of every client keeps servers in step, replies alternating and each client's counters consistent |
| BusyRetry.RunKeepsInv | examples/errors_via_ipc/client_c/src/client.c:110-154 | so every reachable state satisfies it |
| BusyRetry.NoThreeBusy | examples/errors_via_ipc/server_c/src/server.c:43-54 | three consecutive replies of two alternating servers are never all busy |
| BusyRetry.SumsAreHalf | examples/errors_via_ipc/server_c/src/server.c:43-54 | a server that dispatched n requests gave ceil(n/2) sums |
| BusyRetry.SystemProgress | examples/errors_via_ipc/client_cpp/src/client.cpp:44-58 | both hold in every run of any number of clients |
| BusyRetry.AttemptMeetsTarget | examples/errors_via_ipc/client_cpp/src/client.cpp:44-58 | an attempt is dispatched by the target alone, or by none if refused; busy exactly after an odd number of requests, else the sum of that client's operands |
| BusyRetry.KeepsItsRequest | examples/errors_via_ipc/client_cpp/src/client.cpp:42-58 | retries keep the operands and the first server |
| BusyRetry.AnswersTheRequest | examples/errors_via_ipc/client_cpp/src/client.cpp:100-108 | in every run a client gets a refusal or the sum of the operands it last started with, exact for operands below 2^31 |
| BusyRetry.RetryBounds | examples/errors_via_ipc/client_cpp/src/client.cpp:42-72 | under any interference at most limit+2 attempts, that many if and only if the request is refused, repeats equal to the busy replies modulo 2^32, the target fixed by their parity, and a sum that of the operands modulo 2^32 |
| BusyRetry.CutIn | examples/errors_via_ipc/client_c/src/client.c:117-137 | another client can always take the sum a waiting client was about to get |
| BusyRetry.InterferenceCanRefuse | examples/errors_via_ipc/client_cpp/src/client.cpp:59-70 | the attempt bound is reached: under every limit some run ends in a refusal |
| KeyValue.StringStream.Read | examples/jwt/web_server/src/getdatahandler.cpp:18-20 | `getline` as a character loop: line, remaining stream and success as specified |
| KeyValue.GetParamValue | examples/jwt/web_server/src/getdatahandler.cpp:15-29 | the loop computes the lookup and terminates |
| KeyValue.ParamOfPrinted | examples/jwt/web_server/src/getdatahandler.cpp:15-29 | query parse undoes query print: the first value bound to the name, or empty |
| KeyValue.ParamOccurs | examples/jwt/web_server/src/getdatahandler.cpp:20-26 | on any URI a non-empty answer stands there as `name=answer` between separators |
| KeyValue.NoQuery | examples/jwt/web_server/src/getdatahandler.cpp:15-29 | a URI without a question mark yields the empty string |
| KeyValue.GetProperty | examples/wifi/wpa_supplicant_client/client/src/connection_manager.cpp:182-202 | the loop computes the lookup and terminates |
| KeyValue.SplitPrinted | examples/wifi/wpa_supplicant_client/client/src/connection_manager.cpp:189-197 | the first '=' of a printed line separates key and value, later ones stay in the value |
| KeyValue.PropertyOfPrinted | examples/wifi/wpa_supplicant_client/client/src/connection_manager.cpp:182-202 | status parse undoes status print, with or without a final newline and with lines that have no '=' |

## Left out

- SmsPdu.AsciiToPDU: after -1 the octets inside the buffer are not specified; memory behind the buffer is represented by further octets of the same array.
- SemiOctets.NumberToNibbles: after -1 the octets of the region are not specified.
- Septets.OrKeepsWritten: bytes are integers below 256, so `|`, `&` and shifts appear as their arithmetic values.
- Jpeg.GetJpegSize: the index is unbounded, so wrap-around of `size_t` for buffers near 2^64 octets does not appear.
- Monitors.Resolver.OnResolved: the address arrives in dotted form, and of the status only success or failure.
- BusyRetry.CServer.SumRequest: the response structure is taken to be clean at each dispatch, which the generated dispatcher is responsible for.
- BusyRetry.RetryLoop: the limit 2^32 - 1 is excluded, because `repeats` never exceeds it and the loop then need not end.
- BusyRetry.RetryBounds: with the limit 2^32 - 1 the 32-bit `repeats` never exceeds it, so there only the absence of refusals is stated.
- The C client's branch for transport errors other than refusal, which repeats the same request without bound.
- Scheduling fairness and timing: deadlock freedom is stated as the existence of a finishing run from every reachable state.
- CompletionSteps.SweptBeforeCalled: what a read of the host name from the removed node yields is not modelled, because it has no meaning in C++.
- The move of the callback pointer itself interleaving with the sweep, c-ares thread safety, sockets, polling and timeouts.
- A `Resolve` call that fails in transport or because the name is too long for its interface definition.
- A `Callable` shared by several client threads, and a resolver with several clients in the composition (the resolver's own protocol allows any number of threads).
- `YUYVToRGB`, whose meaning is floating-point rounding, and file output in `SaveMJPEG`.
- Dotted-quad formatting and console dumps, which only format text.
- HTTP sessions, JWT, MBIM, camera, VFS, gRPC, protobuf, RabbitMQ and package-manager calls, whose behaviour is that of foreign libraries outside the repository.
