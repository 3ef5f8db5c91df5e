# A verified model of libnitrokey

libnitrokey talks to Nitrokey Pro, Nitrokey Storage and Librem Key devices over 65-byte HID feature reports.
This project models the parts of it that carry state, retry, share or compute, and proves what they keep.
Everything outside the library is arbitrary: hidapi is an oracle that answers the n-th call of each kind as it
likes, a device is any function of what it has been sent, and memory may run out at any strndup.

Check it with `dafny verify dfyconfig.toml` (Dafny 4.11).

| file | models |
|---|---|
| `Bytes.dfy`, `Gf2.dfy` | octets, little-endian storage; polynomials over GF(2) with their division theorem |
| `Crc32.dfy`, `Packet.dfy` | the packet checksum as polynomial remainder; reports, their checksum and corruption |
| `Usb.dfy`, `Device.dfy` | hidapi and `Device`: send, recv, connect, disconnect and reconnect |
| `Replies.dfy`, `Transaction.dfy`, `RunProperties.dfy` | `Transaction::run`, its refinement by a function of the reply trace, and what follows for every run and every sequence of runs |
| `CApi.dfy` | the status codes of the C interface |
| `Locks.dfy`, `Atomicity.dfy` | the three mutexes, for any number of threads |
| `Instances.dfy` | the instance count and `hid_exit`, for any number of threads |
| `Enumeration.dfy`, `Manager.dfy`, `ManagerProperties.dfy` | the manager's devices on the heap and who holds which HID handle; what its identifiers, models and choices are |
| `Text.dfy`, `Fields.dfy` | hexadecimal text and dumps; fixed-size fields and decimal counters |
| `StatusLayout.dfy` | the packed structs of status and slot responses |
| `OtpSlot.dfy`, `OtpProperties.dfy`, `SlotFields.dfy` | writing and reading OTP slots, secret chunks, authorization, the HOTP counter |
| `DeviceList.dfy` | the linked list handed out by `NK_list_devices` and its release |

The structure is the same throughout: a method works as the source does (loops, buffers updated in place,
fields, pointers) and its contract equates what it does with a specification function; the lemmas are about that
function, for all inputs, devices and schedules.

## Results

*Transaction engine.* `Transaction.Run` does exactly what `Transaction.Exchanged` says, for every device. With b
busy and n other replies seen, the loop's counter is R - n - b/11; a run completes if and only if the first
stopping reply carries status 0, is not a long operation and arrives while at least two turns are left
(`RunProperties.RunCompletesIff`), and it throws `DeviceNotConnected` if and only if the handle is lost while sending
or before the last attempt of a recv it comes to (`RunProperties.NotConnectedIff`). A failed read never leads to acceptance of an old buffer. One run reads at
most 11 R (R + 1) reports, and for every device and every open connection some world makes it read that many; all
the time it sleeps is bounded. The statistics keep their relations over every sequence of runs, whether they succeed
or throw, and of manager operations, with connects and disconnects in between.

*Checksum.* The bit-serial shift register, the word-wise loop and the polynomial remainder modulo the generator
of ITU-T Recommendation V.42, section 8.1.1.6.2, agree on every message; a collision happens exactly when the
difference is a multiple of the generator; every burst of up to 32 bits, across words and into the CRC field,
makes a correct report incorrect, and 33 bits are too many for every message of two words or more
(`Crc32.UndetectedPair`).

*Threads and handles.* The methods of `Manager`, `Transaction` and `Device` take and release the library's mutexes
and trace it; what a thread does is a sequence of whole operations (`Manager.Manager.PerformAll`). For any threads
that do such things no reachable state is stuck (`Locks.LibraryDeadlockFree`), and the log of sends and receives is a
concatenation of whole transactions. Over every sequence of manager operations each open handle belongs to exactly
one live `Device`, and none is leaked or overwritten. `hid_exit` is never called while one is open, in any
interleaving of threads that construct, use and destroy devices (`Instances.ExitNeverRash`).

*Encoders.* Decoders invert encoders: hex text, dumps in every style, secrets in chunks of any size, HOTP counters
in text or binary for every model and firmware version, on any device that hands back what it has accepted, however
often it refuses a write or fails to answer.

Where the code differs from what its documentation or its names suggest, the model follows the code:

- Code 0 from a void command is no promise that it was carried out: `get_without_result` maps `InvalidCRCReceived` to
  0, and the requests after the one that ended so are never made. `CApi.CodeZeroIff` says exactly when 0 is returned,
  with and without success, for commands of any number of requests; with a device that answers every read with zeros,
  every void command that sends anything returns 0 without success (`CApi.ZeroAnswersReportSuccess`).
- An acceptable reply on the last permitted receive is still answered with `DeviceReceivingFailure`: exactly when it
  reports no long operation and fewer than two turns are left before it (`RunProperties.RunVerdict`, `Replies.AcceptedMeansRead`), and on every open
  connection some world makes it happen (`RunProperties.AcceptableTooLate`).
- `getType` is not virtual, so every communication failure but that one gives 255.
- A Storage response is accepted exactly in state 4, and in states 0, 1, 3 and 6 with a CRC field
  (`Replies.StorageStatuses`); a Storage that stays in state 5, 7 or 8 makes every run fail, however good its answers
  (`RunProperties.StuckStorageFails`).
- `connect()` keeps the last model that opens, not the first (`Manager.Manager.Connect`), and
  `connect(const char*)` replaces the current device even if the new one cannot be opened.
- A slot write the library itself rejects may already have changed the device. On firmware without the authorization
  command this happens exactly if the password and the name fit while the secret or the token identifier does not
  (`OtpProperties.NoAuthorizeRejectsLateIff`, `OtpProperties.RejectedAfterSendingIff`): for a bad secret the name has
  been sent by then, for a token identifier that is too long the name and every secret packet
  (`OtpProperties.SentBeforeRejection`). `OtpProperties.RejectedButNamed` gives such a slot.
- Reading a slot of a Storage with firmware up to 0.53 whose counter field holds no number, an erased one for
  instance, makes `std::stoull` throw an exception that `NK_read_HOTP_slot` does not catch
  (`OtpProperties.StoullEscapesIff`, `OtpProperties.EscapesIff`, `OtpProperties.ErasedSlotEscapes`).

## Model

| member | source | states |
|---|---|---|
| Crc32.FeedWord | misc.cc:101-113 | the 32-step loop computes the register after one word has been clocked in |
| Crc32.StmCrc32 | misc.cc:115-121 | the loop over a buffer computes the checksum of the little-endian words in it, from the all-ones preset |
| Crc32.WordOfBytes | libnitrokey/device_proto.h:81-96 | storing a CRC field and reading it as a word gives the CRC back |
| Crc32.WordIsLittleEndian | misc.cc:115-121 | a word read from four octets is, bit by bit, the number they denote, least significant octet first |
| Crc32.ShiftIsTimesX | misc.cc:105-110 | one shift step multiplies the register's polynomial by x modulo the generator |
| Crc32.ShiftsIsRem | misc.cc:105-110 | n shift steps give the remainder of the register's polynomial times x^n |
| Crc32.FeedIsRem | misc.cc:115-121 | feeding words to a register is one division of the combined polynomial |
| Crc32.ChecksumIsRemainder | misc.cc:101-121 | the checksum of every word sequence is the remainder of message times x^32 with its first thirty-two coefficients inverted; some quotient exists and no other remainder |
| Crc32.ZerosChecked | misc.cc:115-121 | the preset gives a message of zeros, of any length, a checksum other than zero |
| Crc32.CollisionIffMultiple | misc.cc:101-121 | two messages of one length have the same checksum exactly when their difference is a multiple of the generator |
| Crc32.BurstDetected | misc.cc:101-121 | messages that differ within 32 consecutive bits, across words too, have different checksums |
| Crc32.WordErrorIsBurst | misc.cc:101-121 | a change confined to one word is such a burst |
| Crc32.GeneratorUndetected | misc.cc:101-121 | a difference of 33 bits equal to the generator goes undetected: the burst bound is sharp |
| Crc32.UndetectedPair | misc.cc:101-121 | every message of two words or more has a partner at such a distance, at every word but the last, with the same checksum |
| Crc32.ResidueZero | misc.cc:115-121 | feeding a checksum after its message leaves zero, and only the right checksum does |
| Packet.FillOutgoing | libnitrokey/device_proto.h:83-88 | clearing, setting the command and copying the payload in place give the unsigned report |
| Packet.UpdateCrc | libnitrokey/device_proto.h:90-97 | the CRC field becomes the checksum of bytes 1 to 60 and nothing else changes |
| Packet.GetCrc | libnitrokey/device_proto.h:222-229 | getCRC is the CRC field of the report that is sent for the same payload |
| Packet.OutgoingDecodes | libnitrokey/device_proto.h:74-112 | from an outgoing report, the command, the payload, zero padding and a right CRC can be read back |
| Packet.CorrectIffResidueZero | libnitrokey/device_proto.h:156-164 | isCRCcorrect holds exactly when the register over data and CRC field ends at zero |
| Packet.CorruptionDetected | libnitrokey/device_proto.h:156-164 | a correct report hit by any burst of up to 32 bits, in data or CRC field, is not correct |
| Packet.ByteCorruptionDetected | libnitrokey/device_proto.h:156-164 | nor is one changed anywhere within one of its words |
| Replies.TranslateIdempotent | libnitrokey/device_proto.h:301-331 | translating a buffer that is already translated changes nothing |
| Replies.TranslateScope | libnitrokey/device_proto.h:301-331 | only a Storage's answer to a Storage command is translated, and only two octets of it |
| Replies.ResponseLayout | libnitrokey/device_proto.h:125-166 | the fields of a response are read where the packed struct has them |
| Replies.ZeroedRejected | libnitrokey/device_proto.h:250-258 | the cleared response buffer is not acceptable |
| Replies.StorageStatuses | libnitrokey/device_proto.h:301-341 | a Storage-range response is accepted exactly in state 4, and in states 0, 1, 3 and 6 with a CRC field; it is busy exactly in states 2 and 4; plainly accepted ones have command status 0, 4 or 10 |
| Replies.CounterStep | libnitrokey/device_proto.h:297-365 | the closed forms of both counters follow the code's updates: ten of eleven busy replies are refunded |
| Replies.BackoffStep | libnitrokey/device_proto.h:341-352 | min(initial * 2^(b/11), 300 ms) from the eleventh busy reply on follows the code's doubling and capping |
| Replies.BackoffBounded | libnitrokey/device_proto.h:341-352 | no delay is longer than the initial one and 300 ms |
| Replies.ReceiveBound | libnitrokey/device_proto.h:297-390 | the receive loop takes at most 11 R replies |
| Replies.AlwaysBusy | libnitrokey/device_proto.h:297-390 | a device that is always busy makes it take exactly 11 R |
| Replies.SleepBound | libnitrokey/device_proto.h:341-390 | the pauses of one receive loop sum up to at most 11 R of the longest |
| Replies.StoppedVerdict | libnitrokey/device_proto.h:397-462 | a loop that stops on the first stopping reply of a stream ends as that reply and the turns left say |
| Replies.ExhaustedVerdict | libnitrokey/device_proto.h:411-455 | a loop whose turns run out fails |
| Replies.GivesUpIff | libnitrokey/device_proto.h:411-449 | the loop ends in InvalidCRCReceived exactly when its turns run out on a read reply with a zero CRC field |
| Replies.CompletedIff | libnitrokey/device_proto.h:297-481 | it completes exactly when the first stopping reply is good and at least two turns are left |
| Replies.NoStaleAcceptance | libnitrokey/device_proto.h:297-371 | a reply that is accepted came from a read with positive status |
| Replies.AcceptedMeansRead | libnitrokey/device_proto.h:297-410 | after the loop, an accepted buffer goes with a positive status |
| Usb.SendEffects | device.cc:169-188 | one send tries at most three times and gets the report out at most once |
| Usb.ReceiveEffects | device.cc:190-229 | one recv reads at most R + 1 times and reconnects, and pauses, at most R times; a failed one keeps the buffer, a successful one holds the last report and an open handle |
| Usb.SendEnds | device.cc:169-188 | a send makes the next of three attempts exactly when one has failed and a handle is there again; how it ends, and on which connection |
| Usb.SendThrowsIff | device.cc:175-184 | it throws exactly when there is no handle to begin with or none after its first or second failed attempt |
| Usb.ReceiveEnds | device.cc:197-226 | the same for recv and its R + 1 reads |
| Usb.ReceiveThrowsIff | device.cc:197-226 | it throws exactly when there is no handle to begin with or none after a failed read before the last |
| Usb.ExitsIff | device.cc:123-143 | hid_exit is called exactly when the last instance there is gives back a handle |
| Usb.ClosedKeepsOthers | device.cc:123-143 | _disconnect leaves every other handle alone and calls hid_exit only for the last instance |
| Usb.OpenedKeepsOthers | device.cc:151-163 | _connect on a closed device takes a new handle and touches no other |
| Usb.ReconnectedKeepsOthers | device.cc:303-308 | _reconnect never overwrites an open handle |
| Usb.SendKeepsOthers | device.cc:169-188 | nor does send |
| Usb.ReceiveKeepsOthers | device.cc:190-229 | nor does recv |
| Device.Host.HidGetFeatureReport | device.cc:202-203 | a failed hid_get_feature_report leaves the buffer untouched |
| Device.Device.constructor | device.cc:99-114 | a device starts closed, with zero counters, and is counted as an instance |
| Device.Device.SetDefaultDelay | device.cc:385-395 | a default delay that has been set takes the place of both delays of the new device |
| Device.Device.GetLastCommandStatus | libnitrokey/device.h:184-186 | reading the status clears it |
| Device.Device.Connect | device.cc:145-163 | the whole connection state afterwards |
| Device.Device.Disconnect | device.cc:116-143 | the same, with hid_exit for the last instance |
| Device.Device.Reconnect | device.cc:303-308 | closing and opening again, counted |
| Device.Device.Send | device.cc:169-188 | the retry loop does what Usb.Send says of every world, under mex_dev_com |
| Device.Device.Recv | device.cc:190-229 | the retry loop does what Usb.Receive says of every world, to the buffer too, under mex_dev_com, and pauses once for each reconnect |
| Transaction.TranslateInPlace | libnitrokey/device_proto.h:301-331 | the switch on the Storage status updates the buffer to its translation |
| Transaction.ReceiveOnce | libnitrokey/device_proto.h:298-331 | recv and translation make one reply of the trace |
| Transaction.RecordRejection | libnitrokey/device_proto.h:378-387 | the statistics of a rejected reply |
| Transaction.ReceiveLoop | libnitrokey/device_proto.h:294-390 | counters, buffer, status, statistics and time slept are functions of the reply trace |
| Transaction.SendAndReceive | libnitrokey/device_proto.h:273-395 | the request, the wait and the receive loop, or the failure to send |
| Transaction.Leave | libnitrokey/device_proto.h:397-481 | the ordered exits give the outcome and the statistics of the reply trace |
| Transaction.Run | libnitrokey/device_proto.h:236-482 | outcome, connection, statistics, time, last status and calls under the mutex are those of the pure exchange; without a device it fails at once |
| Transaction.ConverseIsRun | libnitrokey/device_proto.h:294-390 | the trace is a genuine run: each turn was permitted, failed reads keep the buffer, and the loop stopped when it had to |
| Transaction.ConservedByReplies | libnitrokey/device_proto.h:298-470 | one loop and its exit keep the relations between the statistics |
| RunProperties.RunCompletesIff | libnitrokey/device_proto.h:236-482 | a run completes exactly when the request was sent and the stream of answers completes in time |
| RunProperties.NotConnectedIff | libnitrokey/device_proto.h:236-395 | a run throws DeviceNotConnected exactly when the handle is lost in sending, or in a recv it comes to with turns left |
| RunProperties.SendingFailureIff | libnitrokey/device_proto.h:280-287 | it throws DeviceSendingFailure exactly when the handle is not lost and nothing was sent |
| RunProperties.WithoutHandle | device.cc:175-179 | on a device without a handle nothing is sent, read, opened or slept, and no sending error is counted |
| RunProperties.RunVerdict | libnitrokey/device_proto.h:397-462 | for the first stopping answer seen with turns left, the outcome; failure if it took the last turn |
| RunProperties.RunExhausted | libnitrokey/device_proto.h:411-455 | without one, the run ends in InvalidCRCReceived if its turns run out on a read answer with a zero CRC field, and in a receiving failure otherwise |
| RunProperties.InvalidCrcIff | libnitrokey/device_proto.h:446-449 | a run ends in InvalidCRCReceived exactly when the request was sent and the device's answers use up its turns, the last one read with a zero CRC field |
| RunProperties.AcceptableTooLate | libnitrokey/device_proto.h:446-455 | for all settings, on every open connection, some world makes a run fail although the last report it reads is acceptable and of status 0 |
| RunProperties.RepeatedRejection | libnitrokey/device_proto.h:297-455 | a device that repeats one unacceptable report makes every run fail, in InvalidCRCReceived exactly if that has a zero CRC field |
| RunProperties.StuckStorageFails | libnitrokey/device_proto.h:301-331 | a Storage that stays in state 2, 5, 7, 8 or an unknown one with a CRC field ends every run in a receiving failure |
| RunProperties.OutcomeWasRead | libnitrokey/device_proto.h:297-481 | a response, a refusal, a long operation and a zero CRC field come from a report read during this very run, and say what it says |
| RunProperties.AnsweredStaysOpen | libnitrokey/device_proto.h:397-481 | a run answered with data or a status leaves the handle open |
| RunProperties.RunSendsOnce | libnitrokey/device_proto.h:276-289 | the request reaches the device at most once and nothing else does |
| RunProperties.RunReadBound | libnitrokey/device_proto.h:276-395 | one run makes at most 11 R (R + 1) feature-report reads |
| RunProperties.ReadBoundReached | device.cc:197-226 | for all settings and on every open connection, some world makes a run read exactly that often |
| RunProperties.RunSleepBound | libnitrokey/device_proto.h:290-388 | all the time a run sleeps: before its first recv, between the replies, and inside recv after each reconnect |
| RunProperties.RunSleeps | libnitrokey/device_proto.h:290-388 | what a run sleeps is the wait after sending, the back-off and recv's pauses; at least the shorter of initial delay and 300 ms for each rejected reply, and exactly the initial one if none was busy |
| RunProperties.RunKeepsOthers | libnitrokey/device_proto.h:236-482 | a run leaves all other devices' handles alone |
| RunProperties.RunConserves | libnitrokey/device_proto.h:250-470 | each run, thrown or not, keeps the relations between the statistics |
| RunProperties.RunCounts | libnitrokey/device_proto.h:250-470 | what one run adds to each counter, by its outcome and the replies it has seen |
| RunProperties.RunStatus | libnitrokey/device_proto.h:397-462 | the last command status a run leaves, by its outcome |
| RunProperties.StatisticsConserved | libnitrokey/device.h:114-131 | so does every sequence of runs, each counted once |
| RunProperties.NewDeviceConserved | libnitrokey/device.h:114-131 | in particular for a newly constructed device: the relations hold after any runs, and all were counted |
| CApi.CApi.GetLastCommandStatus | NK_C_API.cc:124-128 | reading the status clears it |
| CApi.CApi.VoidCommand | NK_C_API.cc:97-117 | the code returned and stored is that of the first failure of the command's steps, with or without a device |
| CApi.Execute | NK_C_API.cc:97-101 | a command goes on until its first step that throws |
| CApi.RunFailures | libnitrokey/device_proto.h:437-462 | a long operation carries status 1, a failed command a nonzero one, in the Storage range 4 or 10 |
| CApi.VoidCommandCode | NK_C_API.cc:97-117 | for any number of requests: 0 exactly without failure or with InvalidCRCReceived; 1 for a long operation, 255 for any other communication failure, the device's status, 4 or 10 in the Storage range, for a refusal; else 0 or a library error |
| CApi.WithoutDeviceCode | NK_C_API.cc:97-117 | without a device a void command that sends anything returns 255 or a library error |
| CApi.SingleRunCode | NK_C_API.cc:97-117 | the same for one request, by the way its run ends |
| CApi.WrappersDiffer | NK_C_API.cc:60-117 | the two wrappers differ on InvalidCRCReceived alone, which gives 255 and 0 |
| CApi.AnsweredIff | libnitrokey/device_proto.h:236-482 | a run completes exactly when the request was sent and the device answered in time |
| CApi.CodeZeroIff | NK_C_API.cc:97-117 | for any steps: no failure exactly if every request was answered; InvalidCRCReceived exactly if all before one were, and its loop gave up after a report with a zero CRC field; code 0 exactly in one of these cases |
| CApi.ZeroAnswersReportSuccess | NK_C_API.cc:110-112 | with a device that answers zeros, every command that sends anything, of any number of requests, returns 0 without success |
| Locks.ThreadDisciplined | NitrokeyManager.cc:115-198 | in every sequence of operations the mutexes are taken in one order, never twice, and released; Manager.Manager.PerformAll shows that the manager's bodies do such sequences |
| Locks.ManagedThroughout | NitrokeyManager.cc:344-358 | a manager operation holds the manager's mutex from its first action to its last |
| Locks.NotStuck | device.cc:145-194 | in a state that follows the discipline, somebody can take a step unless all are done |
| Locks.DeadlockFree | libnitrokey/device_proto.h:236-395 | along every interleaving the discipline is kept, nobody is stuck and the work left shrinks |
| Locks.LibraryDeadlockFree | NitrokeyManager.cc:344-372 | any threads that do whole operations of the library never deadlock and finish |
| Instances.ExitNeverRash | device.cc:99-163 | however threads construct, connect, use, reconnect, disconnect and destroy devices, hid_exit is never called while a handle is open, and every open handle has exactly one device |
| Instances.OnlyOneCounted | device.cc:136-141 | an instance count of one, seen by a device that has closed its handle, means that nothing is open |
| Instances.OpenedMatched | device.cc:151-163 | opening a device without a handle keeps handles and devices matched |
| Atomicity.TransactionsAtomic | libnitrokey/device_proto.h:242-395 | for threads that do whole operations of the library, every interleaving's log is whole runs and at most one begun; at the end exactly the runs asked for |
| Atomicity.NothingInBetween | libnitrokey/device_proto.h:242-395 | between a request and any of its replies no other request is sent |
| Manager.FindModel | NitrokeyManager.cc:226-234 | the first enumerated entry at the path that is a known device |
| Manager.Manager.StaysSound | device.cc:116-163 | whatever one device does with its own connection, every open handle still has exactly one holder and all statistics add up |
| Manager.Manager.Create | device.cc:331-349 | a new device: its defaults or the default delay that has been set, no handle, one more instance |
| ManagerProperties.ReadsByModel | device.cc:331-349 | a run on a Pro or Librem Key can read 2640 reports, on a Storage 33880 |
| ManagerProperties.DelaysByModel | device.cc:331-395 | the delays of each model, with and without a default delay |
| Manager.Manager.Destroy | device.cc:310-314 | the destructor closes the handle and gives up the instance |
| Manager.Manager.Release | NitrokeyManager.cc:251-254 | a device is destroyed exactly when its last reference goes |
| Manager.Manager.Select | NitrokeyManager.cc:178-180 | the new current device, and what becomes of the one before |
| Manager.Manager.Disconnect | NitrokeyManager.cc:344-358 | the current device is closed and dropped; the result says whether it was open |
| Manager.Manager.IsConnected | NitrokeyManager.cc:360-372 | true for an open device that is still enumerated; else it is dropped |
| Manager.Manager.ConnectModel | NitrokeyManager.cc:296-313 | the named model becomes current even if it cannot be opened; an unknown name changes nothing |
| ManagerProperties.ModelNamedIff | NitrokeyManager.cc:296-331 | a name asks for a model exactly if it begins with the name connect(DeviceModel) uses |
| Manager.Manager.Connect | NitrokeyManager.cc:260-272 | the last of three models that opens becomes current; if none does, nothing changes |
| Manager.Manager.ConnectWithPath | NitrokeyManager.cc:207-258 | the first vendor's device at the path that opens becomes current, with its path as identifier; else nothing changes |
| ManagerProperties.FirstOpenedIff | NitrokeyManager.cc:221-258 | which vendor's device is opened: the first that is known at the path and opens, each one before it tried |
| ManagerProperties.ModelAtIff | NitrokeyManager.cc:228-234 | which model a path stands for: that of the first known device listed there |
| ManagerProperties.KnownProducts | device.cc:54-76 | vendor and product numbers of each model |
| Manager.Manager.ConnectWithId | NitrokeyManager.cc:169-198 | a registered device becomes current and answers GET_STATUS, or is closed and forgotten on a communication failure |
| ManagerProperties.CommunicationFailureIff | NitrokeyManager.cc:186-193 | the failures that make it give up a device |
| Manager.Manager.Register | NitrokeyManager.cc:155-155 | the current device is registered; one registered there before loses a reference |
| Manager.Manager.ListOne | NitrokeyManager.cc:132-165 | one enumerated Storage device: opened, made current, asked for its status on a connection in the state described, registered under the identifier the answer gives |
| Manager.Manager.ListDevicesById | NitrokeyManager.cc:115-167 | every Storage path is visited in order, each from where the one before has left hidapi; exactly the identifiers of those that answered are returned and registered, each connected; the last one opened is current |
| ManagerProperties.IdentifierIs | NitrokeyManager.cc:139-154 | an identifier is the smart card's and the SD card's number in hexadecimal and the path, or the path of a device busy with a long operation; other devices have none |
| ManagerProperties.StatusNamesCards | libnitrokey/stick20_commands.h:158-206 | the numbers are those fields of the status struct |
| ManagerProperties.ListedIdentifiers | NitrokeyManager.cc:132-165 | what list_devices_by_cpuID returns are the identifiers of the devices that have answered so, and all of them |
| ManagerProperties.StoragePathsAppend | NitrokeyManager.cc:132-135 | one path for each Storage enumerated, in order |
| Manager.Manager.Shutdown | NitrokeyManager.cc:84-92 | at the end no handle is open, no instance left, and hid_exit never came too early |
| Manager.Manager.SetDefaultCommandsDelay | NitrokeyManager.cc:287-294 | delays below 20 ms are refused; others are for devices constructed later |
| Manager.Manager.SetCurrentDeviceSpeed | NitrokeyManager.cc:94-107 | the same for both delays of the current device |
| Manager.Manager.PerformAll | NitrokeyManager.cc:115-372 | every sequence of requests, failing or not, keeps all of this and the statistics of every device, and does whole operations to the mutexes |
| Manager.Manager.OneHolder | device.cc:116-163 | each open handle belongs to one device the manager refers to and to no other |
| Manager.Lifetime | NitrokeyManager.cc:79-92 | from the first call to the destructor no handle is leaked |
| Text.HexStringToByte | misc.cc:36-61 | the loop decodes, or names the first bad character |
| Text.DecodesIff | misc.cc:36-61 | it succeeds exactly on an even number, below 257, of hexadecimal digits |
| Text.DecodesExactlySpellings | misc.cc:36-61 | it returns given octets exactly for their two-digit spellings in either case |
| Text.ToHexDecodes | libnitrokey/misc.h:63-69 | the text of a 32-bit value has eight digits and decodes to its octets, most significant first |
| Text.ToHexInjective | libnitrokey/misc.h:63-69 | different values have different texts |
| Text.Hexdump | misc.cc:64-99 | the nested loops print the rows of the buffer in the chosen style |
| Text.DumpParses | misc.cc:64-99 | in every style the cells of a dump give the buffer back, in one line for every sixteen octets begun |
| Text.DumpInjective | misc.cc:64-99 | different buffers have different dumps |
| Text.DumpRows | misc.cc:64-99 | line k of a dump is the row of the octets from 16 k on, with that offset |
| Text.RowShows | misc.cc:64-99 | what a row shows where: its offset, its cells, dashes for the missing ones, and its characters |
| Text.HeaderShows | misc.cc:70-73 | four digits that denote the offset |
| Text.Printable | misc.cc:87-95 | which octets the last column shows as themselves |
| Text.DigitsInOrder | libnitrokey/misc.h:63-69 | the digits and their values |
| Fields.StrcpyT | libnitrokey/misc.h:78-95 | copies and pads, leaves the field alone for null, rejects what is longer than the field |
| Fields.FieldReadsBack | libnitrokey/misc.h:78-95 | what fits can be read back |
| SlotFields.FieldIs | libnitrokey/misc.h:78-95 | a field holds the characters of its text and then zeros, or only zeros for null |
| Fields.DecimalLength | NitrokeyManager.cc:594-598 | a counter has at most k digits exactly below the k-th power of ten |
| Fields.DecimalAppends | NitrokeyManager.cc:594-598 | digits are printed most significant first, without leading zeros |
| Fields.CounterTextRoundTrip | NitrokeyManager.cc:1195-1198 | stoull of the eight-byte text of a counter is the counter |
| Fields.StoullThrowsIff | NitrokeyManager.cc:1195-1198 | stoull throws exactly on a text without a digit after leading spaces and at most one sign |
| Fields.StoullIs | NitrokeyManager.cc:1195-1198 | otherwise it is the number its digits denote, or 2^64 less that |
| OtpSlot.Session.GetMinorFirmwareVersion | NitrokeyManager.cc:988-1005 | the version asked for and computed, by model |
| OtpSlot.Session.AuthorizePacket | NitrokeyManager.cc:66-76 | asks for the version, then authorizes the command's future checksum with the padded password |
| OtpSlot.Session.WriteHotpSlotAuthorize | NitrokeyManager.cc:578-612 | sends what the plan says until something fails, rejecting in the code's order |
| OtpSlot.Session.WriteOtpSlotNoAuthorize | NitrokeyManager.cc:631-671 | the name, the secret packets and the slot, until something fails; without a device nothing is sent, and texts that are too long are found first |
| OtpSlot.Session.WriteSecret | NitrokeyManager.cc:650-670 | the chunking loop sends the packets of the secret, then the slot |
| OtpSlot.Session.WriteHotpSlot | NitrokeyManager.cc:562-576 | rejects slots above 2, then writes by the path the firmware version selects; without a device it sends nothing and throws DeviceNotConnected |
| OtpSlot.Session.GetOtpSlotData | NitrokeyManager.cc:1182-1201 | reads a slot and converts a textual counter of an older Storage; without a device it throws DeviceNotConnected |
| OtpSlot.Session.GetHotpSlotData | NitrokeyManager.cc:1207-1209 | the same for any HOTP slot number, valid or not |
| OtpSlot.Session.NkReadHotpSlot | NK_C_API.cc:955-976 | the status and the data handed out, unless an exception escapes |
| OtpProperties.CarryEffects | NitrokeyManager.cc:631-671 | what is sent is a beginning of the plan, each command but the last one answered |
| OtpProperties.SecretRecovered | NitrokeyManager.cc:641-660 | for any chunk size: packets numbered 0, 1, 2, ..., as few as will do, their data joined the secret and then zeros |
| OtpProperties.SlotWrittenLast | NitrokeyManager.cc:631-671 | the slot is written last, after packets that carry the whole secret and were all answered |
| OtpProperties.AuthorizationMatches | NitrokeyManager.cc:66-76 | for every command and payload the authorized CRC is the CRC field of the report later sent for it |
| OtpProperties.AuthorizedCrcMatches | NitrokeyManager.cc:578-612 | in the HOTP write, it is the CRC of the very next command |
| OtpProperties.EncodedIff | NitrokeyManager.cc:562-671 | the library lets a write through exactly if the texts fit, and on an older Storage the counter is below 10^8; else it is a too long string |
| OtpProperties.NoAuthorizeRejectsLateIff | NitrokeyManager.cc:631-671 | without authorization, a write is rejected after something has been sent exactly if password and name fit and the secret or the token identifier does not |
| OtpProperties.SentBeforeRejection | NitrokeyManager.cc:631-671 | what has been sent by then: the name, and for a bad token identifier the whole secret |
| OtpProperties.RejectedAfterSendingIff | NitrokeyManager.cc:562-671 | the same of the whole write, on any device: exactly on firmware without authorization, if password and name fit |
| OtpProperties.RejectedButNamed | NitrokeyManager.cc:631-649 | a slot that is rejected for its secret after the device has been sent its name |
| OtpProperties.StoullEscapesIff | NitrokeyManager.cc:1182-1201 | reading a slot ends in stoull's exception exactly when an older Storage answers with a counter field that holds no number |
| OtpProperties.EscapesIff | NK_C_API.cc:955-976 | it is the one failure the C interface lets through |
| OtpProperties.ErasedSlotEscapes | NK_C_API.cc:955-976 | reading an erased slot of such a Storage ends that way |
| OtpProperties.HotpWriteLayout | libnitrokey/stick10_commands.h:110-136 | every field of a WriteToHOTPSlot payload can be read at its offset, options as bits |
| OtpProperties.OtpWriteLayout | libnitrokey/stick10_commands_0.8.h:147-172 | the same for WriteToOTPSlot |
| SlotFields.AuthorizedWriteFields | NitrokeyManager.cc:578-612 | the last command of an authorized write holds the slot's number, name, secret and then zeros, options, token identifier and counter |
| SlotFields.PlainWriteFields | NitrokeyManager.cc:631-671 | without authorization the first command holds password and name, the last one everything else |
| SlotFields.PlainWriteSecret | NitrokeyManager.cc:641-660 | and those in between the octets the secret spells, then zeros |
| SlotFields.WrittenSlot | NitrokeyManager.cc:562-576 | a write that succeeds ends with the command for slot 16 + n, of the layout the answered version asks for |
| SlotFields.FirmwareNumbers | libnitrokey/command_id.h:66-112 | slot and command numbers, and the versions that have the authorization command |
| SlotFields.RejectionCodes | libnitrokey/LibraryException.h:41-108 | the code of a rejected write, by what is wrong with the slot |
| SlotFields.InvalidSlotCode | NitrokeyManager.cc:562-565 | a slot number out of range gives 201 and nothing is sent |
| SlotFields.StorageVersion | NitrokeyManager.cc:996-1002 | a Storage's minor version, one more for development firmware |
| SlotFields.StickVersion | NitrokeyManager.cc:990-995 | a stick's minor version is the first octet of its status |
| SlotFields.ReadKeepsRest | NitrokeyManager.cc:1182-1201 | reading a slot changes its counter alone, and that only on an older Storage, from text to binary |
| SlotFields.SlotRead | libnitrokey/stick10_commands.h:324-346 | so name, options and token identifier are those of the slot stored |
| OtpProperties.StoringDeviceIsFaithful | libnitrokey/stick10_commands.h:305-370 | devices that keep counter octets as written exist, for every model and version, whatever they refuse |
| OtpProperties.OthersKeepCounter | libnitrokey/stick10_commands.h:110-162 | commands to other slots, and refused writes to this one, leave a stored counter alone |
| OtpProperties.HotpCounterRoundTrip | NitrokeyManager.cc:562-612 | for every model and version, an answered read of a written slot gives the counter written, whatever else was asked or refused since, and a read fails only because the device does |
| DeviceList.CopyDeviceInfo | NK_C_API.cc:840-860 | a node describes its device exactly if both copies find memory |
| DeviceList.TruncatedIs | NK_C_API.cc:840-860 | what fits the limit is duplicated whole |
| DeviceList.NkListDevices | NK_C_API.cc:862-889 | a list that matches the devices in order and owns what was allocated, or null, exactly if a copy fails or there are none, with all given back |
| DeviceList.NkFreeDeviceInfo | NK_C_API.cc:891-901 | every node and both its strings are released exactly once, from the end of the list |
| DeviceList.ListAndFree | NK_C_API.cc:862-901 | listing and freeing leaves nothing allocated |

## Left out

- hidapi, USB and real time: hidapi's results are arbitrary, and a failed read leaves the buffer alone; pauses are summed up, not waited for.
- Device.Device.constructor: the sending count is a constant of the model, 1, as in every device.
- RunProperties.StatisticsConserved: the counters do not wrap around at 32 bits, and CRC_other_than_awaited, which the code never increments, is not kept.
- Logging, dissecting packets into text and clear_packet: output and clean-up without influence on results.
- Locks.LibraryDeadlockFree: the mutexes of the log and of the singleton are innermost and short, and not part of the model; each thread's operations are those the methods make of the state they find, which other threads may have changed in any way.
- Manager.Manager.ConnectWithPath: what hid_enumerate lists is a parameter; the cache of connections, which is switched off in the code, is left out.
- macOS: the variants of disconnect and could_be_enumerated for it.
- Text.Hexdump: a buffer so long that its offset does not fit an int.
- Fields.StrcpyT: the exception's text, which quotes the source string.
- OtpProperties.HotpCounterRoundTrip: the firmware is any device that, when it answers, hands back the counter octets it has last accepted; what else it does with slots is arbitrary.
- TOTP slots, EraseSlot, general configuration: they use the same payload, chunk and authorization code with other fields.
- User authorization: the same function with another command number.
- One-line wrappers for passwords, volumes, password safe, firmware update and status getters: they fill a payload and call run.
- DeviceList.NkListDevices: new is assumed to find memory; only strndup can fail.
- Instances.ExitNeverRash: connect is called on devices without a handle, as everywhere in the manager; calls on a device are over before it is destroyed, as shared_ptr sees to.
- Reading back full-width string fields through strndup: it depends on bytes beyond the field.
