# Verification of the olemop algorithms

This project models the self-contained algorithms of the olemop game-server framework in Dafny and
proves what they are for. Each part follows the form of the code: an object whose methods change its
fields is a class, a loop is a method with a loop, and each is proved against a specification whose
own properties are then proved as lemmas.

- **Big integers** (`Digits`, `BigInteger`, `Division`, `Montgomery`, `Barrett`, `ModPow`,
  `BinaryInverse`, `InverseRange`, `ModInverse`, `RsaPrivate`): numbers of digits below B = 2^28 with a
  sign digit, changed in place. The multiply-accumulate kernel, addition, subtraction, multiplication, squaring, shifts, long division,
  the Montgomery and Barrett reductions, sliding-window exponentiation, the binary extended inverse and
  the RSA private operation are each proved against integer arithmetic, with every intermediate of the
  kernel inside 32 bits. Section 5.1.2 of RFC 8017 describes the recombination.
- **Scheduler** (`Calendar`, `CronTrigger`, `PriorityQueue`, `ScheduleTrace`, `Schedule`): the next fire
  time of a cron trigger over the Gregorian calendar, the array heap, and the scheduler that joins heap,
  job map and one timer. A ghost trace records what was scheduled, run and cancelled; it is lawful in
  every reachable state.
- **Cluster membership** (`Application`, `Watchdog`, `Membership`, `Network`): the watchdog of the master,
  the tables of an application, and the cluster as a state machine with one channel for every connected
  monitor; the running objects do its steps.
- **Schema-driven codec** (`Varint`, `Buffer`, `ProtoParser`, `ProtoWire`, `ProtoRoundTrip`,
  `ProtoEncoder`, `ProtoDecoder`): the schema tables, the encoder over a buffer, the decoder with its
  cursor, and the round trip.
- **Routing** (`ConsistentHash`, `WeightedRoundRobin`): the hash ring and the weighted round-robin.
- **Behaviour trees** (`BehaviorTree`, `BehaviorNodes`): ticks that go on where the last one stopped refine
  running a tree to the end, and the node objects do what the ticks do.
- **Wire framing** (`ProtocolText`, `ProtocolPackage`, `ProtocolMessage`): strings, packages and messages.

Some properties that one would expect are false of the code:

- A modular inverse is not always in 0..m-1, for odd and for even moduli (`InverseOutOfRange`,
  `EvenInverseOutOfRange`). It is for every x of at most six bits and every m, which takes in the exponents
  3 and 17 of RSA keys; and for every input it is off by no more than the bits of x allow
  (`SmallInverseInRange`, `InverseWithin`). Whether larger x come out in range depends on the run; no
  condition on x and m alone that decides it is known here.
- After a node has been added to the hash ring that was there already, the search takes in fewer keys than are
  listed. For some hash a lookup answers another node than the one the hash belongs to, exactly if a point
  above the last searched key belongs to another node than that key (`LookupsAfterAdding`). Some hash comes to
  another point than its own, exactly unless the node has a single point and that is the greatest of all
  (`AddedTwice`, `GreatestIsMissed`).
- The tables of a monitor disagree after a second process has registered under a connected id, exactly if
  it has another type than the first (`DuplicateExactly`, `SecondProcessDisagrees`). When the second process
  leaves, the first, connected still, learns nothing more until it disconnects (`LeaveCutsOff`).
- A reader without the schema cannot pass over packed values: they have the head of a single value
  (`PackedStopsShort`). Every other value can be passed over (`MessagePassed`).
- The bytes that are made room for a message id are those that it takes exactly for ids below 2^31 and some
  between 2^32 and 2^35 (`IdBytesExactly`).

`dafny verify dfyconfig.toml` checks the whole project.

## Model

| member | source | states |
|---|---|---|
| Digits.ValUnique | packages/olemop-client-js/src/lib/olemop-rsasign/jsbn.js:257-265 | Two digit strings of one length with the same value are the same digits. |
| BigIntegers.NumBounds | packages/olemop-client-js/src/lib/olemop-rsasign/jsbn.js:210-213 | The sign digit and the number of digits of a clamped number bound its value on both sides, so comparing signs and lengths first is right. |
| BigIntegers.AmDigit | packages/olemop-client-js/src/lib/olemop-rsasign/jsbn.js:87-98 | One step of the multiply-accumulate kernel: every intermediate fits a 32-bit integer, and digit and carry make up w + x*a + c exactly. |
| BigIntegers.AmHalves | packages/olemop-client-js/src/lib/olemop-rsasign/jsbn.js:90-94 | The four half products of 14-bit halves are the product, each within its bound. |
| BigIntegers.BigInteger.Am | packages/olemop-client-js/src/lib/olemop-rsasign/jsbn.js:87-98 | The kernel over n digits: w' + carry*B^n = w + x*a + c, digits proper, carry bounded, and no digit outside the n written. |
| BigIntegers.BigInteger.FromInt | packages/olemop-client-js/src/lib/olemop-rsasign/jsbn.js:151-157 | From a small integer not below -1: the clamped number of that value. |
| BigIntegers.BigInteger.CopyTo | packages/olemop-client-js/src/lib/olemop-rsasign/jsbn.js:144-148 | The copy has the value and shape of the original. |
| BigIntegers.BigInteger.Clamp | packages/olemop-client-js/src/lib/olemop-rsasign/jsbn.js:210-213 | Clamping keeps the value and gives the clamped representation. |
| BigIntegers.BigInteger.IsEven | packages/olemop-client-js/src/lib/olemop-rsasign/jsbn.js:566 | True exactly for even values of either sign. |
| BigIntegers.BigInteger.SigNum | packages/olemop-client-js/src/lib/olemop-rsasign/jsbn.js:652-656 | The sign of the value. |
| BigIntegers.BigInteger.CompareTo | packages/olemop-client-js/src/lib/olemop-rsasign/jsbn.js:257-265 | Negative, zero or positive as the difference of the values is. |
| BigIntegers.NBits | packages/olemop-client-js/src/lib/olemop-rsasign/jsbn.js:268-276 | The bit length of a 32-bit word, by halving the range. |
| BigIntegers.BigInteger.BitLength | packages/olemop-client-js/src/lib/olemop-rsasign/jsbn.js:279-282 | The position n of the leading bit of a number that is not negative, or of the complement of a negative one: 2^(n-1) <= value < 2^n. |
| BigIntegers.BigInteger.DLShiftTo | packages/olemop-client-js/src/lib/olemop-rsasign/jsbn.js:285-291 | Multiplies by B^n in place or into another number. |
| BigIntegers.BigInteger.DRShiftTo | packages/olemop-client-js/src/lib/olemop-rsasign/jsbn.js:294-298 | Divides by B^n rounding down, for either sign, in place or into another number. |
| BigIntegers.BigInteger.LShiftTo | packages/olemop-client-js/src/lib/olemop-rsasign/jsbn.js:301-315 | Multiplies by 2^n, also in place. |
| BigIntegers.BigInteger.RShiftTo | packages/olemop-client-js/src/lib/olemop-rsasign/jsbn.js:318-333 | Divides by 2^n rounding down, also in place. |
| BigIntegers.BigInteger.SubTo | packages/olemop-client-js/src/lib/olemop-rsasign/jsbn.js:336-366 | The exact clamped difference for every combination of signs, also when the result is an operand. |
| BigIntegers.BigInteger.AddTo | packages/olemop-client-js/src/lib/olemop-rsasign/jsbn.js:872-902 | The exact clamped sum for every combination of signs, also when the result is an operand. |
| BigIntegers.BigInteger.Negate | packages/olemop-client-js/src/lib/olemop-rsasign/jsbn.js:249 | The negated value in a fresh number. |
| BigIntegers.BigInteger.AbsValue | packages/olemop-client-js/src/lib/olemop-rsasign/jsbn.js:252-254 | The magnitude, the number itself if it is not negative. |
| BigIntegers.BigInteger.MultiplyTo | packages/olemop-client-js/src/lib/olemop-rsasign/jsbn.js:370-379 | Schoolbook multiplication gives the exact signed product. |
| BigIntegers.CarryTrick | packages/olemop-client-js/src/lib/olemop-rsasign/jsbn.js:388-391 | When a carry of a squaring row overflows its digit, setting the next digit to 1 replaces a zero, so nothing is lost. |
| BigIntegers.SquareRowDone | packages/olemop-client-js/src/lib/olemop-rsasign/jsbn.js:386-392 | A row of the dedicated squaring adds the diagonal and the doubled products of one digit. |
| BigIntegers.BigInteger.SquareTo | packages/olemop-client-js/src/lib/olemop-rsasign/jsbn.js:382-396 | The dedicated squaring gives the product of the number with itself. |
| Division.EstimateBounds | packages/olemop-client-js/src/lib/olemop-rsasign/jsbn.js:428-431 | For a normalised divisor the estimate from the leading digits is never below the true quotient digit and never above B. |
| Division.QuotientDigit | packages/olemop-client-js/src/lib/olemop-rsasign/jsbn.js:428-438 | One round of long division: estimate, trial subtraction and correction leave the remainder below the divisor with the next quotient digit in place. |
| Division.DivideMagnitudes | packages/olemop-client-js/src/lib/olemop-rsasign/jsbn.js:411-447 | Long division in place of non-negative numbers gives quotient and remainder. |
| Division.DivRemTo | packages/olemop-client-js/src/lib/olemop-rsasign/jsbn.js:400-449 | Quotient truncated toward zero and remainder with the sign of the dividend; nothing happens for a zero divisor; q and r may each be absent and r may be the dividend. |
| Division.Mod | packages/olemop-client-js/src/lib/olemop-rsasign/jsbn.js:452-457 | The remainder modulo a positive number in 0..a-1, for either sign of the dividend. |
| Montgomery.Newton | packages/olemop-client-js/src/lib/olemop-rsasign/jsbn.js:491-501 | One step y(2-xy) turns an inverse modulo n into one modulo any divisor of n*n. |
| Montgomery.InvDigit | packages/olemop-client-js/src/lib/olemop-rsasign/jsbn.js:486-504 | For an odd low digit x the result y has x*y = -1 modulo 2^28; otherwise it is 0. |
| Montgomery.RowClears | packages/olemop-client-js/src/lib/olemop-rsasign/jsbn.js:539-543 | The multiple of the modulus that is added in pass i makes digit i zero. |
| Montgomery.PropagateCarry | packages/olemop-client-js/src/lib/olemop-rsasign/jsbn.js:545-546 | The carry loop ends inside the padded 2t+1 digits and leaves every digit proper. |
| Montgomery.MontReduce | packages/olemop-client-js/src/lib/olemop-rsasign/jsbn.js:534-551 | For x below m*B^t the result r is below m with r*B^t = x modulo m. |
| Barrett.MultiplyUpperTo | packages/olemop-client-js/src/lib/olemop-rsasign/jsbn.js:978-988 | The product without its lower digits, too small by at most the number of rows. |
| Barrett.MultiplyLowerTo | packages/olemop-client-js/src/lib/olemop-rsasign/jsbn.js:964-974 | The product modulo B^n. |
| Barrett.QuotientEstimate | packages/olemop-client-js/src/lib/olemop-rsasign/jsbn.js:1010-1013 | The quotient estimate is never too large and too small by a bounded number, so the correction loops end. |
| Barrett.BarrettReduce | packages/olemop-client-js/src/lib/olemop-rsasign/jsbn.js:1009-1017 | Reduces modulo m every number below B^(2t). |
| ModPow.Reducer.MakeBarrett | packages/olemop-client-js/src/lib/olemop-rsasign/jsbn.js:991-998 | mu is B^(2t) divided by m. |
| ModPow.Reducer.MakeMontgomery | packages/olemop-client-js/src/lib/olemop-rsasign/jsbn.js:507-514 | The precomputed halves of the negated inverse of the low digit are right for reducing modulo m. |
| ModPow.Reducer.Reduce | packages/olemop-client-js/src/lib/olemop-rsasign/jsbn.js:466-536 | Each reducer takes a product of residues back below m, up to its own constant factor. |
| ModPow.Reducer.MulTo | packages/olemop-client-js/src/lib/olemop-rsasign/jsbn.js:467 | Multiplying two encoded residues and reducing encodes the product, for every reducer. |
| ModPow.Reducer.SqrTo | packages/olemop-client-js/src/lib/olemop-rsasign/jsbn.js:468 | Squaring an encoded residue and reducing encodes the square, for every reducer. |
| ModPow.Reducer.Convert | packages/olemop-client-js/src/lib/olemop-rsasign/jsbn.js:461-523 | Converting encodes any number, of either sign and any size, modulo m. |
| ModPow.Reducer.Revert | packages/olemop-client-js/src/lib/olemop-rsasign/jsbn.js:526-531 | Reverting an encoded number gives its residue in 0..m-1. |
| ModPow.FindWindow | packages/olemop-client-js/src/lib/olemop-rsasign/jsbn.js:1066-1074 | A window begins on a set bit, is odd and at most k bits long, and the bits above and in it are those of the exponent. |
| ModPow.SkipZeros | packages/olemop-client-js/src/lib/olemop-rsasign/jsbn.js:1083-1086 | Zero bits between windows are squared away one by one until a set bit or the end. |
| ModPow.Window | packages/olemop-client-js/src/lib/olemop-rsasign/jsbn.js:1065-1082 | One round of the scan takes whole bits off the exponent and keeps the accumulator at the power of the bits taken. |
| ModPow.Precompute | packages/olemop-client-js/src/lib/olemop-rsasign/jsbn.js:1050-1060 | The table holds the odd powers of the base below 2^k, encoded. |
| ModPow.Scan | packages/olemop-client-js/src/lib/olemop-rsasign/jsbn.js:1062-1087 | The scan takes every bit of the exponent exactly once and ends with the encoded power. |
| ModPow.ModPow | packages/olemop-client-js/src/lib/olemop-rsasign/jsbn.js:1032-1089 | Sliding-window exponentiation gives base^e modulo m for every base, every non-negative e and every positive m, with whichever reducer is chosen; 1 for e = 0. |
| ModPow.Exp | packages/olemop-client-js/src/lib/olemop-rsasign/jsbn.js:569-579 | Square-and-multiply with a small exponent gives the power modulo the reducer's modulus, and 1 outside 1..2^32-1. |
| ModPow.ModPowInt | packages/olemop-client-js/src/lib/olemop-rsasign/jsbn.js:582-586 | The same with the reducer chosen by the exponent and the parity of the modulus. |
| ModInverse.InvertStep | packages/olemop-client-js/src/lib/olemop-rsasign/jsbn.js:1136-1164 | One round keeps u = a*m + b*x and v = c*m + d*x (modulo m for odd m) and the common divisors, and makes u + v smaller. |
| ModInverse.ModInverse | packages/olemop-client-js/src/lib/olemop-rsasign/jsbn.js:1130-1169 | For positive x and m > 1 it ends; the result is zero exactly when x and m have a common divisor, and otherwise an inverse of x modulo m: the corrected coefficient of the run, for either parity of m, with the bounds below, and in 0..m-1 for every x below 64. |
| BinaryInverse.CorrectedInRange | packages/olemop-client-js/src/lib/olemop-rsasign/jsbn.js:1166-1168 | The final correction lands in 0..m-1 exactly when the coefficient is in -2m..2m-1. |
| BinaryInverse.InverseOutOfRange | packages/olemop-client-js/src/lib/olemop-rsasign/jsbn.js:1166-1168 | For x = 1748 and the odd m = 3659 the coefficient is -7969 and the result -651: an inverse, but negative. |
| BinaryInverse.EvenInverseOutOfRange | packages/olemop-client-js/src/lib/olemop-rsasign/jsbn.js:1166-1168 | For x = 24367 and the even m = 30376 the coefficient is -61945 and the result -1193. |
| InverseRange.StepU | packages/olemop-client-js/src/lib/olemop-rsasign/jsbn.js:1137-1158 | A pass that takes v from u keeps both coefficients within their bounds: what b and d may be off, in 32nds of m, given how many of the bits of x are left in u and v. |
| InverseRange.StepV | packages/olemop-client-js/src/lib/olemop-rsasign/jsbn.js:1147-1163 | The same for a pass that takes u from v. |
| InverseRange.CoefficientWithin | packages/olemop-client-js/src/lib/olemop-rsasign/jsbn.js:1136-1164 | For every x of n bits and every m the run ends with a coefficient d of at most (8n + 15)/32 m + 1, on either side of 0. |
| InverseRange.InverseWithin | packages/olemop-client-js/src/lib/olemop-rsasign/jsbn.js:1130-1169 | The result is at most (n + 3)/4 m + 1, on either side of 0, for every input. |
| InverseRange.SmallInverseInRange | packages/olemop-client-js/src/lib/olemop-rsasign/jsbn.js:1130-1169 | The result is in 0..m-1 for every x of at most six bits that has an inverse, whatever m is. |
| RsaPrivate.Garner | packages/olemop-client-js/src/lib/olemop-rsasign/rsa.js:263 | The recombination formula gives a number in 0..pq-1 with the two residues. |
| RsaPrivate.ResiduesDetermine | packages/olemop-client-js/src/lib/olemop-rsasign/rsa.js:263 | There is only one such number. |
| RsaPrivate.RaiseAbove | packages/olemop-client-js/src/lib/olemop-rsasign/rsa.js:261-262 | The adjustment loop ends with a number that is not below xq and has the residue of xp. |
| RsaPrivate.DoPrivateCrt | packages/olemop-client-js/src/lib/olemop-rsasign/rsa.js:258-263 | With coeff*q = 1 modulo p, the result is the number in 0..pq-1 congruent to x^dmp1 modulo p and x^dmq1 modulo q. |
| RsaPrivate.RecombinesIsPower | packages/olemop-client-js/src/lib/olemop-rsasign/rsa.js:252-263 | If both exponents agree with d modulo the primes, that number is x^d modulo pq, as without the factors. |
| RsaPrivate.Key.DoPrivate | packages/olemop-client-js/src/lib/olemop-rsasign/rsa.js:252-263 | Without p or q the power modulo n directly, otherwise the recombination. |
| Calendar.YearStartClosed | packages/olemop-scheduler/lib/cronTrigger.js:54-55 | The days before a year counted one by one are 365 a year and the leap days in closed form. |
| Calendar.Epoch | packages/olemop-scheduler/lib/cronTrigger.js:54-55 | Day and weekday of the first of January 1970. |
| Calendar.MonthStartClosed | packages/olemop-scheduler/lib/cronTrigger.js:359-363 | The days before each month counted month by month are 31 before February, 59 or 60 before March, and from there on 153 in five months. |
| Calendar.EarlierIsLess | packages/olemop-scheduler/lib/cronTrigger.js:50-55 | The order of dates field by field is the order of the seconds they count. |
| Calendar.NextSecondCounts | packages/olemop-scheduler/lib/cronTrigger.js:50-55 | The following second, with its carries through minute, hour, day, month and year, counts one second more. |
| Calendar.Date.SetSeconds | packages/olemop-scheduler/lib/cronTrigger.js:145-150 | Setting 60 carries into the minute. |
| Calendar.Date.SetMinutes | packages/olemop-scheduler/lib/cronTrigger.js:131-137 | Setting 60 carries into the hour. |
| Calendar.Date.SetHours | packages/olemop-scheduler/lib/cronTrigger.js:116-122 | Setting 24 carries into the day. |
| Calendar.Date.SetDate | packages/olemop-scheduler/lib/cronTrigger.js:95-115 | One day past the end of a month is the first of the next. |
| Calendar.Date.SetMonth | packages/olemop-scheduler/lib/cronTrigger.js:69-96 | Month 12 is January of the next year; a day past the end of the new month runs over into the one after it. |
| Calendar.Date.SetYear | packages/olemop-scheduler/lib/cronTrigger.js:69 | Sets the year and keeps the rest, but the 29th of February becomes the 1st of March in a year without it. |
| Calendar.Date.constructor | packages/olemop-scheduler/lib/cronTrigger.js:54 | A date object of a given civil time. |
| Calendar.GetDomLimit | packages/olemop-scheduler/lib/cronTrigger.js:359-363 | The number of days of the month, as the difference of the days before the next month and before this one in closed form; the day after the last one is the first. |
| CronTriggers.TimeMatch | packages/olemop-scheduler/lib/cronTrigger.js:192-211 | True exactly for the values of the field. |
| CronTriggers.NextCronTime | packages/olemop-scheduler/lib/cronTrigger.js:165-184 | The least later value of the field, or the least of all when there is no later one; nothing only for an empty list. |
| CronTriggers.CronTrigger.SettleMonth | packages/olemop-scheduler/lib/cronTrigger.js:62-83 | Moves to the next matching month, or to the next year, without passing a match. |
| CronTriggers.CronTrigger.SeekDay | packages/olemop-scheduler/lib/cronTrigger.js:86-108 | Moves to the next day of the month that matches both day fields, or to the next month, without passing a match. |
| CronTriggers.CronTrigger.SettleDay | packages/olemop-scheduler/lib/cronTrigger.js:85-109 | Both day fields must match. |
| CronTriggers.CronTrigger.SettleHour | packages/olemop-scheduler/lib/cronTrigger.js:111-125 | Moves to the next matching hour, or to the next day, without passing a match. |
| CronTriggers.CronTrigger.SettleMinute | packages/olemop-scheduler/lib/cronTrigger.js:127-139 | Moves to the next matching minute, or to the next hour, without passing a match. |
| CronTriggers.CronTrigger.SettleSecond | packages/olemop-scheduler/lib/cronTrigger.js:141-151 | Moves to the next matching second, or to the next minute, without passing a match. |
| CronTriggers.CronTrigger.Settle | packages/olemop-scheduler/lib/cronTrigger.js:57-153 | One round either ends on a match of all six fields, or moves strictly forward without passing one, or shows that nothing ever matches. |
| CronTriggers.CronTrigger.NextExcuteTime | packages/olemop-scheduler/lib/cronTrigger.js:48-157 | The least second strictly after the given one that matches, or null exactly when there is none before the year 3000; the stored time changes only with a result. |
| CronTriggers.CronTrigger.constructor | packages/olemop-scheduler/lib/cronTrigger.js:26-32 | A new trigger stands at its first match after now. |
| PriorityQueues.HeapMinimum | packages/olemop-scheduler/lib/priorityQueue.js:98-102 | In a heap nothing is before the front. |
| PriorityQueues.Rise | packages/olemop-scheduler/lib/priorityQueue.js:34-45 | Exchanging an entry with its parent moves the one place out of order up. |
| PriorityQueues.SinkRight | packages/olemop-scheduler/lib/priorityQueue.js:66-71 | The right child is taken only when it is the smaller one, and moves the one place out of order down. |
| PriorityQueues.SinkLeft | packages/olemop-scheduler/lib/priorityQueue.js:72-76 | The left child is taken only when it is the smaller one, and moves the one place out of order down. |
| PriorityQueues.PriorityQueue.Size | packages/olemop-scheduler/lib/priorityQueue.js:21-23 | Zero exactly for an empty queue. |
| PriorityQueues.PriorityQueue.Peek | packages/olemop-scheduler/lib/priorityQueue.js:98-102 | An entry of the queue with the least time, or null for an empty one. |
| PriorityQueues.PriorityQueue.Offer | packages/olemop-scheduler/lib/priorityQueue.js:29-48 | Adds one entry to the contents and keeps the heap; an entry that is not earlier than the front leaves the front where it is. |
| PriorityQueues.PriorityQueue.Pop | packages/olemop-scheduler/lib/priorityQueue.js:54-92 | Takes the front out of the contents and keeps the heap. |
| ScheduleTraces.EpochIsZero | packages/olemop-scheduler/lib/cronTrigger.js:155-156 | The time of the first second of 1970 is 0 milliseconds. |
| ScheduleTraces.SecondIsThousand | packages/olemop-scheduler/lib/cronTrigger.js:155-156 | The following second of the calendar is 1000 milliseconds later. |
| ScheduleTraces.CancelledNeverRuns | packages/olemop-scheduler/lib/schedule.js:45-57 | In a lawful trace no run of a job comes after its cancellation. |
| ScheduleTraces.NeverTooEarly | packages/olemop-scheduler/lib/schedule.js:77 | No run in a lawful trace is ten milliseconds or more before its planned time. |
| ScheduleTraces.OverExactly | packages/olemop-scheduler/lib/simpleTrigger.js:32-45 | A simple job is over exactly when it has run and nothing more can be planned for it. |
| ScheduleTraces.RunsWithinCount | packages/olemop-scheduler/lib/simpleTrigger.js:32-45 | In a lawful trace a simple job with a count runs at most that often. |
| ScheduleTraces.CronRunsInTurn | packages/olemop-scheduler/lib/cronTrigger.js:48-157 | In a lawful trace a cron job that has run at one match runs next at the match that follows it: later, with no match in between. |
| ScheduleTraces.PlanIsUnique | packages/olemop-scheduler/lib/schedule.js:19-40 | An id stands for one job for ever. |
| ScheduleTraces.ScheduleStep | packages/olemop-scheduler/lib/schedule.js:24-38 | Scheduling under a new id keeps map, queue and trace coherent. |
| ScheduleTraces.RunStep | packages/olemop-scheduler/lib/schedule.js:77-87 | Running the head keeps map, queue and trace coherent: the run is for its planned time, at a moment not too early for it, and the job is queued again at its next time or is over. |
| ScheduleTraces.CancelStep | packages/olemop-scheduler/lib/schedule.js:45-57 | Cancelling keeps map, queue and trace coherent, whether or not the entry is the head. |
| ScheduleTraces.StaleStep | packages/olemop-scheduler/lib/schedule.js:109-112 | Dropping the entry of a job that is gone keeps map, queue and trace coherent. |
| ScheduleTraces.LiveHead | packages/olemop-scheduler/lib/schedule.js:109-112 | If the head belongs to a live job, its time is the least next time of all live jobs. |
| ScheduleTraces.DueDrops | packages/olemop-scheduler/lib/schedule.js:77-89 | A run lowers the milliseconds by which the live jobs are due, so the loop ends. |
| Schedules.SimpleTrigger.constructor | packages/olemop-scheduler/lib/simpleTrigger.js:9-19 | A start, period or count of 0 counts as not given. |
| Schedules.SimpleTrigger.NextExcuteTime | packages/olemop-scheduler/lib/simpleTrigger.js:32-45 | Null exactly without a positive period or when the count is used up; otherwise one period later. |
| Schedules.Job.Run | packages/olemop-scheduler/lib/job.js:42-53 | Counts the run. |
| Schedules.Job.NextTime | packages/olemop-scheduler/lib/job.js:58-60 | The next planned time of the job: for a simple job start + i*period, for a cron job the next match; null when the job is over. |
| Schedules.Scheduler.constructor | packages/olemop-scheduler/lib/schedule.js:7-14 | A scheduler without jobs. |
| Schedules.Scheduler.TimerIsMinimum | packages/olemop-scheduler/lib/schedule.js:65-69 | The timer is set for the least time of the live jobs, and is off only when there is none. |
| Schedules.Scheduler.PeekNextJob | packages/olemop-scheduler/lib/schedule.js:103-115 | Drops entries of jobs that are gone and returns the live job at the head. |
| Schedules.Scheduler.IsDue | packages/olemop-scheduler/lib/schedule.js:77 | True exactly if the time of the job is less than the accuracy after the reading of the clock. |
| Schedules.Scheduler.RunHead | packages/olemop-scheduler/lib/schedule.js:78-87 | Runs the head, which is due by the last reading of the clock, records that reading, and queues the job for its next time or drops it. |
| Schedules.Scheduler.SetTimer | packages/olemop-scheduler/lib/schedule.js:65-69 | Arms the timer for the time of the head. |
| Schedules.Scheduler.RunDue | packages/olemop-scheduler/lib/schedule.js:75-89 | The loop ends when every live job is the accuracy or more after the clock; the runs are in the order of their times, and each was made at a reading of the clock during the call that was never the accuracy or more before its time. |
| Schedules.Scheduler.ExcuteJob | packages/olemop-scheduler/lib/schedule.js:74-97 | After the call no live job was due at its beginning, its runs are in order of their times, none at a reading of the clock the accuracy or more before its time, the timer is armed for the minimum, and the scheduler is valid. |
| Schedules.Scheduler.Fire | packages/olemop-scheduler/lib/schedule.js:65-97 | The same when the timer runs out. |
| Schedules.Scheduler.ScheduleJob | packages/olemop-scheduler/lib/schedule.js:19-40 | The new job is live at its first time under a new id, the others are unchanged, and the timer is armed for the minimum. |
| Schedules.Scheduler.CancelAtHead | packages/olemop-scheduler/lib/schedule.js:46-52 | Cancelling the head runs what is due in the order of the times, nothing too early by the clock; after that no live job was due at the beginning. |
| Schedules.Scheduler.CancelJob | packages/olemop-scheduler/lib/schedule.js:45-57 | The job is gone and its cancellation recorded, no job is added, the runs are those that cancelling the head starts, in order and not too early by the clock, and the timer is armed for the minimum. |
| Applications.ReplaceServer | packages/olemop/lib/application.js:881-889 | The entry with the id becomes the new one; without one it goes to the end. |
| Applications.RemoveServer | packages/olemop/lib/application.js:891-900 | Takes out the first entry with the id. |
| Applications.ReplaceInMembers | packages/olemop/lib/application.js:881-889 | The list keeps distinct ids and has the new entry in place of the old one. |
| Applications.RemoveInMembers | packages/olemop/lib/application.js:891-900 | The list keeps distinct ids and loses exactly the entry with the id. |
| Applications.ListsByType | packages/olemop/lib/application.js:740-742 | In tables that agree, the list of a type holds the servers of this type and no others, each once, and the types are those that have a list, each once. |
| Applications.AddAgrees | packages/olemop/lib/application.js:784-801 | Adding a server keeps the three tables in agreement exactly when its id does not change its type. |
| Applications.RemoveAgrees | packages/olemop/lib/application.js:812-824 | Removing a server keeps the tables in agreement. |
| Applications.ReplaceAgrees | packages/olemop/lib/application.js:832-853 | Replacing the servers brings the tables into agreement whatever they were. |
| Applications.AddAllServers | packages/olemop/lib/application.js:781-803 | Adding a list overrides the entries with the same ids and keeps the others. |
| Applications.Application.AddServers | packages/olemop/lib/application.js:781-803 | The three tables after the loop are those of adding the servers one by one. |
| Applications.Application.RemoveServers | packages/olemop/lib/application.js:809-826 | The three tables after the loop are those of removing the ids one by one; unknown ids change nothing. |
| Applications.Application.ReplaceServers | packages/olemop/lib/application.js:832-853 | The three tables are rebuilt from the new entries. |
| Watchdogs.Agent.Request | packages/olemop/lib/master/watchdog.js:66-74 | Queues a message for a connected monitor; without a connection it is lost. |
| Watchdogs.Watchdog.Notify | packages/olemop/lib/master/watchdog.js:76-112 | Every listener, and nobody else, is sent the message once. |
| Watchdogs.Watchdog.AddServer | packages/olemop/lib/master/watchdog.js:19-23 | Stores the server and announces it to the listeners. |
| Watchdogs.Watchdog.RemoveServer | packages/olemop/lib/master/watchdog.js:25-30 | Unsubscribes and deletes the server and tells the remaining listeners. |
| Watchdogs.Watchdog.ReconnectServer | packages/olemop/lib/master/watchdog.js:32-43 | A known record is kept; the server gets all servers, the listeners get it, and then it listens. |
| Watchdogs.Watchdog.Subscribe | packages/olemop/lib/master/watchdog.js:45-47 | Adds a listener and nothing else. |
| Watchdogs.Watchdog.Unsubscribe | packages/olemop/lib/master/watchdog.js:49-51 | Removes a listener and nothing else. |
| Watchdogs.Watchdog.Record | packages/olemop/lib/master/watchdog.js:57-64 | The listeners are told once that all servers have started, when the count falls below zero. |
| Watchdogs.OnServerAdd | packages/olemop/lib/modules/masterwatcher.js:25-29 | Clients and records without a type are ignored, others added. |
| Watchdogs.OnServerReconnect | packages/olemop/lib/modules/masterwatcher.js:31-38 | Clients and records without a type are ignored, others reconnected. |
| Watchdogs.OnServerLeave | packages/olemop/lib/modules/masterwatcher.js:40-49 | Clients and empty ids are ignored, others removed. |
| Watchdogs.OnSubscribe | packages/olemop/lib/modules/masterwatcher.js:72-79 | The monitor listens before it is answered with all servers. |
| Memberships.MonitorHandler | packages/olemop/lib/modules/monitorwatcher.js:25-122 | Each message changes the tables of the monitor as its action says. |
| Memberships.HandleServers | packages/olemop/lib/modules/monitorwatcher.js:36-122 | What each message does to the table of servers alone. |
| Memberships.AfterDeliver | packages/olemop/lib/modules/monitorwatcher.js:25-33 | Delivering the first message leaves what the monitor will have in the end unchanged. |
| Memberships.StepKeeps | packages/olemop/lib/master/watchdog.js:19-51 | Registering, subscribing, a second process under one id and its leaving, disconnecting of servers and clients, reconnecting, starting and delivering all keep the convergence of every listening monitor. |
| Memberships.Convergence | packages/olemop/lib/master/watchdog.js:19-112 | In every state of every run, what is on the way to a listening monitor turns its table into the servers of the master; with nothing on the way they are equal. |
| Memberships.NothingToldBefore | packages/olemop/lib/modules/monitorwatcher.js:20-22 | In every run a connected monitor that does not listen has been told nothing, so it may subscribe, unless a second process under its id has left. |
| Memberships.CutOffStays | packages/olemop/lib/master/watchdog.js:25-30 | No event but its own disconnecting changes the servers that a monitor which was cut off will have. |
| Memberships.LeaveCutsOff | packages/olemop-admin/lib/master/masterSocket.js:203-228 | In every run, when a second process leaves, the first, connected still, stops listening and has the servers of that moment until it disconnects; they are those of the master only if that had no server under the id. |
| Memberships.SubscribeExactly | packages/olemop/lib/modules/monitorwatcher.js:36-50 | Why a monitor must subscribe with an empty table, as it does when it starts: the answer converges exactly when the table will have no server that is gone from the master. |
| Memberships.ReconnectExactly | packages/olemop/lib/master/watchdog.js:32-40 | Why a server must be gone before it reconnects, as the master sees to: the announcement agrees with the servers of the master exactly when it had no other record of it. |
| Memberships.Agreement | packages/olemop/lib/application.js:781-853 | The tables of every monitor agree in every state of every run in which a second process under a connected id has the type of the first; an id that comes back may have another type. |
| Memberships.HandleAgrees | packages/olemop/lib/modules/monitorwatcher.js:54-122 | A message that gives no id of the table another type keeps the tables in agreement. |
| Memberships.DuplicateExactly | packages/olemop-admin/lib/master/masterAgent.js:405-455 | Announcing a second process under a connected id keeps the agreement exactly if it has the type of the first. |
| Memberships.SecondProcessDisagrees | packages/olemop-admin/lib/master/masterAgent.js:405-455 | The run in which it does not: a listening server whose id a process of another type registers. |
| Networks.Network.Register | packages/olemop/lib/modules/masterwatcher.js:25-29 | The running objects do what registering does to the cluster. |
| Networks.Network.Subscribe | packages/olemop/lib/modules/masterwatcher.js:72-79 | The same for subscribing. |
| Networks.Network.Duplicate | packages/olemop/lib/modules/masterwatcher.js:25-29 | The same for a second process under one id. |
| Networks.Network.Leave | packages/olemop/lib/modules/masterwatcher.js:40-49 | The same for the leaving of a second process. |
| Networks.Network.Disconnect | packages/olemop/lib/modules/masterwatcher.js:40-49 | The same for disconnecting. |
| Networks.Network.Reconnect | packages/olemop/lib/modules/masterwatcher.js:31-38 | The same for reconnecting. |
| Networks.Network.Record | packages/olemop/lib/master/watchdog.js:57-64 | The same for the last report of a start, and nothing before and after it. |
| Networks.Network.Deliver | packages/olemop/lib/modules/monitorwatcher.js:25-33 | The same for delivering a message. |
| Varints.UIntRoundTrip | packages/olemop-protobuf/lib/codec.js:8-56 | Decoding the bytes of a number gives it back; all bytes but the last are 128 or more. |
| Varints.ZigzagRoundTrip | packages/olemop-protobuf/lib/codec.js:34-66 | Zigzag coding is inverted, for every integer. |
| Varints.ZigzagOnto | packages/olemop-protobuf/lib/codec.js:34-66 | Zigzag coding reaches every natural number. |
| Varints.EncodeUInt32 | packages/olemop-protobuf/lib/codec.js:8-27 | Writes seven bits a byte, the low ones first; null for a negative number. |
| Varints.EncodeSInt32 | packages/olemop-protobuf/lib/codec.js:34-42 | Writes the zigzag form. |
| Varints.DecodeUInt32 | packages/olemop-protobuf/lib/codec.js:44-56 | The value of the bytes up to the first one below 128. |
| Varints.DecodeSInt32 | packages/olemop-protobuf/lib/codec.js:59-66 | The integer whose zigzag form the bytes are. |
| ProtoParsers.ParsedIndexed | packages/olemop-protobuf/lib/parser.js:22-58 | The tag of every field leads back to its name, here and in the nested messages. |
| ProtoParsers.FieldKept | packages/olemop-protobuf/lib/parser.js:38-51 | A field whose name and tag occur once is kept as declared. |
| ProtoParsers.ParseObject | packages/olemop-protobuf/lib/parser.js:22-58 | The loop fills the three tables as entry by entry; a tag that is taken is skipped. |
| ProtoParsers.Parse | packages/olemop-protobuf/lib/parser.js:8-15 | Every schema is parsed under its key. |
| ProtoWires.FindMessage | packages/olemop-protobuf/lib/encoder.js:140 | The message declared inside goes before the one declared at the top. |
| ProtoWires.IsSimpleType | packages/olemop-protobuf/lib/util.js:2 | The types whose repeated values are packed. |
| ProtoWires.PutStores | packages/olemop-protobuf/lib/decoder.js:40-48 | A value that is read replaces the one under its name and leaves the others. |
| ProtoWires.ReadUInt | packages/olemop-protobuf/lib/decoder.js:132-148 | Reading a number moves the cursor forward and stays inside the buffer. |
| ProtoRoundTrips.HeadName | packages/olemop-protobuf/lib/decoder.js:65-72 | A head with a tag below 2^28 is read as the name of its field. |
| ProtoRoundTrips.ValueSkipped | packages/olemop-protobuf/lib/encoder.js:189-196 | The head of a value gives its tag, and a reader who knows no more than the low three bits of the head ends where the bytes of the value end. |
| ProtoRoundTrips.MessagePassed | packages/olemop-protobuf/lib/encoder.js:88-109 | So a reader without a schema passes over all values of a message without packed ones, to its last byte. |
| ProtoRoundTrips.PackedStopsShort | packages/olemop-protobuf/lib/encoder.js:163-170 | Packed values have the head of a single one: such a reader stops before their end. |
| ProtoRoundTrips.ReadItemsAt | packages/olemop-protobuf/lib/decoder.js:120-130 | Packed values are read back one by one to the last byte. |
| ProtoRoundTrips.ReadTaggedAt | packages/olemop-protobuf/lib/decoder.js:44-49 | Values with a head each are collected into one list. |
| ProtoRoundTrips.ReadPropAt | packages/olemop-protobuf/lib/decoder.js:86-118 | A value of any type, nested messages included, is read back and ends where its bytes end. |
| ProtoRoundTrips.ReadAllAt | packages/olemop-protobuf/lib/decoder.js:32-54 | Reading the bytes of a message adds its properties to those read before. |
| ProtoRoundTrips.DecodeEncode | packages/olemop-protobuf/lib/decoder.js:19-54 | For every parsed schema and every message that fits it, decoding its bytes gives the message without unknown properties and empty repeated fields, and uses every byte. |
| ProtoRoundTrips.CleanPropsAreKept | packages/olemop-protobuf/lib/encoder.js:88-108 | A message comes back as it was exactly when the schema knows all its properties and no repeated field is empty, at every depth. |
| Buffers.WriteBytes | packages/olemop-protobuf/lib/encoder.js:180-187 | Writes the bytes at the offset and nothing else. |
| ProtoEncoders.EncodeTag | packages/olemop-protobuf/lib/encoder.js:189-196 | The bytes of tag and wire type, which is looked up in the table of types; ValueSkipped says what it means. |
| ProtoEncoders.EncodeMsg | packages/olemop-protobuf/lib/encoder.js:88-108 | Writes the properties of the message from the offset on and nothing else. |
| ProtoEncoders.EncodeProp | packages/olemop-protobuf/lib/encoder.js:111-157 | Writes one value; a nested message behind its own length, which is that of the bytes written. |
| ProtoEncoders.EncodeArray | packages/olemop-protobuf/lib/encoder.js:162-178 | Writes a repeated field packed behind a count, or with a head for each value. |
| ProtoEncoders.CheckMsg | packages/olemop-protobuf/lib/encoder.js:46-86 | True exactly when no required field is missing, at every depth. |
| ProtoEncoders.Encode | packages/olemop-protobuf/lib/encoder.js:11-41 | The bytes of the message, or null for an unknown route, a missing required field or an encoding without bytes. |
| ProtoDecoders.Decoder.GetBytes | packages/olemop-protobuf/lib/decoder.js:132-148 | The bytes of one number, or an exception at the end of the buffer. |
| ProtoDecoders.Decoder.DecodeProp | packages/olemop-protobuf/lib/decoder.js:86-118 | Reads one value and leaves the cursor behind it, for any bytes. |
| ProtoDecoders.Decoder.DecodeArray | packages/olemop-protobuf/lib/decoder.js:120-130 | Pushes the values that one head announces. |
| ProtoDecoders.Decoder.DecodeMsg | packages/olemop-protobuf/lib/decoder.js:32-54 | Reads properties up to a position, for any bytes; it always ends. |
| ProtoDecoders.Decode | packages/olemop-protobuf/lib/decoder.js:19-30 | The message in a buffer, null for an unknown route, or an exception. |
| ConsistentHashes.DecimalReads | packages/olemop-rpc/lib/util/consistentHash.js:29 | The text of a number in a label has digits only and no zero in front, and comes to the number when it is read. |
| ConsistentHashes.NumeralUnique | packages/olemop-rpc/lib/util/consistentHash.js:29 | No other such text comes to the number. |
| ConsistentHashes.PointsAreLabelled | packages/olemop-rpc/lib/util/consistentHash.js:29-45 | The points of a node are the hashes of its id, a colon and such a text. |
| ConsistentHashes.NoCollisions | packages/olemop-rpc/lib/util/consistentHash.js:29 | Points of different nodes or numbers collide only if the hash of two texts does, since their labels are different. |
| ConsistentHashes.OwnerUnique | packages/olemop-rpc/lib/util/consistentHash.js:65-94 | A hash belongs to one point only. |
| ConsistentHashes.AddIsMonotone | packages/olemop-rpc/lib/util/consistentHash.js:26-34 | Adding a node moves keys to that node only. |
| ConsistentHashes.RemoveIsMonotone | packages/olemop-rpc/lib/util/consistentHash.js:36-54 | Removing a node moves the keys of that node only. |
| ConsistentHashes.AddRemoveRestores | packages/olemop-rpc/lib/util/consistentHash.js:26-54 | Adding a node and removing it again restores the ring and with it every lookup. |
| ConsistentHashes.AddedTwice | packages/olemop-rpc/lib/util/consistentHash.js:26-94 | After adding a node every hash still comes to the point it belongs to, exactly if the node was not there or has a single point and that is the greatest of all. |
| ConsistentHashes.LookupsExactly | packages/olemop-rpc/lib/util/consistentHash.js:56-94 | With sorted keys that list the points, some more than once, every lookup answers the node that the hash belongs to, exactly if the points above the last searched key are points of the node of that key. |
| ConsistentHashes.LookupsAfterAdding | packages/olemop-rpc/lib/util/consistentHash.js:26-94 | After adding a node every lookup answers the node that the hash belongs to, exactly if the node was not there or the points above the last searched key are points of the node of that key. |
| ConsistentHashes.FoundOrAbove | packages/olemop-rpc/lib/util/consistentHash.js:65-94 | The search among such keys comes to the point that the hash belongs to, unless that is above all keys that are searched. |
| ConsistentHashes.StillListed | packages/olemop-rpc/lib/util/consistentHash.js:26-34 | Adding a node, there or not, keeps the keys a sorted list of the points of the ring. |
| ConsistentHashes.GreatestIsMissed | packages/olemop-rpc/lib/util/consistentHash.js:65-94 | Otherwise the search ends before the greatest point: a hash on it goes to the node of the last key that is searched. |
| ConsistentHashes.FoundOwns | packages/olemop-rpc/lib/util/consistentHash.js:65-94 | With the keys of the ring once each, the search comes to the point that the hash belongs to. |
| ConsistentHashes.Splice | packages/olemop-rpc/lib/util/consistentHash.js:37-42 | The loop that splices takes out every equal entry. |
| ConsistentHashes.ConsistentHash.constructor | packages/olemop-rpc/lib/util/consistentHash.js:9-24 | Adds the given nodes, with 100 replicas by default; the keys list the points in order, once each if the nodes are all different. |
| ConsistentHashes.ConsistentHash.AddNode | packages/olemop-rpc/lib/util/consistentHash.js:26-34 | The points of the node, the hashes of its id, a colon and the decimal text of each number below the replicas, join the ring and the sorted keys, which go on listing the points of the ring; for a new node once each. |
| ConsistentHashes.ConsistentHash.RemoveNode | packages/olemop-rpc/lib/util/consistentHash.js:36-54 | The points with those labels leave the ring, and all copies of them and of no other leave the keys, which stay sorted; the ring is in order again exactly if no other node was added twice. |
| ConsistentHashes.ConsistentHash.GetNodePosition | packages/olemop-rpc/lib/util/consistentHash.js:65-94 | Among as many keys as the ring has points: the hash itself, or the greatest below it, or the last one if there is none. |
| ConsistentHashes.ConsistentHash.GetNode | packages/olemop-rpc/lib/util/consistentHash.js:56-63 | The node of that key, or 0 for an empty ring; the node that the hash belongs to whenever lookups are right, as on a ring in order. |
| WeightedRoundRobins.MaxWeight | packages/olemop-rpc/lib/rpc-client/router.js:84-89 | The greatest positive weight, or -1. |
| WeightedRoundRobins.Fewer | packages/olemop-rpc/lib/rpc-client/router.js:91-112 | Every further probe is nearer to a pick, from any stored index and weight, so the loop ends. |
| WeightedRoundRobins.ProbeIsNext | packages/olemop-rpc/lib/rpc-client/router.js:91-112 | The next pick is the first of what is left of the cycle, and the rest is left after it. |
| WeightedRoundRobins.Fair | packages/olemop-rpc/lib/rpc-client/router.js:91-112 | As many consecutive picks as the sum of the weights, from any point of the cycle on, pick each server exactly as often as its weight. |
| WeightedRoundRobins.FirstIsHeaviest | packages/olemop-rpc/lib/rpc-client/router.js:81-112 | The first call picks the first of the servers with the greatest weight, or reports that none is positive. |
| WeightedRoundRobins.FirstOnCycle | packages/olemop-rpc/lib/rpc-client/router.js:81-82 | The first call is on the cycle. |
| WeightedRoundRobins.PickOnCycle | packages/olemop-rpc/lib/rpc-client/router.js:91-112 | So is every call after a pick, whatever list and weights were before; without a pick there is no positive weight. |
| WeightedRoundRobins.Client.GetMaxWeight | packages/olemop-rpc/lib/rpc-client/router.js:84-89 | The loop finds the greatest positive weight, or -1. |
| WeightedRoundRobins.Client.Pick | packages/olemop-rpc/lib/rpc-client/router.js:91-112 | The probing loop ends with the pick of the specification. |
| WeightedRoundRobins.Client.WrrRoute | packages/olemop-rpc/lib/rpc-client/router.js:72-113 | Picks a server and stores index and weight, or reports missing servers or weights and stores nothing; the first call picks the first of the heaviest. |
| BehaviorTrees.EvalFromIgnores | packages/olemop-behavior-tree/lib/node/Sequence.js:24-36 | The children before the current one play no part in what is still to be run. |
| BehaviorTrees.SequenceSteps | packages/olemop-behavior-tree/lib/node/Sequence.js:17-40 | A tick of a Sequence or Select is one step of running its children in turn. |
| BehaviorTrees.ParallelSteps | packages/olemop-behavior-tree/lib/node/Parallel.js:24-69 | A tick of a Parallel is one step of running its children together: counts, rest and longest wait fit. |
| BehaviorTrees.SequenceAnswers | packages/olemop-behavior-tree/lib/node/Sequence.js:17-40 | A Sequence at rest succeeds exactly if every child does, a Select exactly if some child does. |
| BehaviorTrees.ParallelAnswers | packages/olemop-behavior-tree/lib/node/Parallel.js:71-78 | A Parallel at rest that fails on all fails exactly if no child succeeds; one that fails on one succeeds exactly if no child fails. |
| BehaviorTrees.LoopAnswers | packages/olemop-behavior-tree/lib/node/Loop.js:23-31 | A Loop whose condition holds n times succeeds exactly if its child succeeds n + 1 times one after the other. |
| BehaviorTrees.LoopSteps | packages/olemop-behavior-tree/lib/node/Loop.js:23-31 | A tick of a Loop is one step of repeating its child, with one wait more for each repetition. |
| BehaviorTrees.EmptyComposite | packages/olemop-behavior-tree/lib/node/Select.js:18 | A composite without children answers success at once, a Select too. |
| BehaviorTrees.StepOnce | packages/olemop-behavior-tree/lib/node/Parallel.js:24-69 | For every tree between two ticks, a tick answers what running to the end answers or takes one wait off it. |
| BehaviorTrees.TicksRefineEval | packages/olemop-behavior-tree/lib/node/Sequence.js:17-44 | A tree at rest answers wait exactly as often as its children's waits add up to (longest for Parallel), then its one-shot result, and is at rest again with all its descendants. |
| BehaviorNodes.Node.Turns | packages/olemop-behavior-tree/lib/node/Select.js:17-39 | A Sequence or Select object, resumed at its index, does what one tick of its tree does. |
| BehaviorNodes.Node.Together | packages/olemop-behavior-tree/lib/node/Parallel.js:24-69 | A Parallel object, resumed with the children it waits for, does what one tick of its tree does. |
| BehaviorNodes.Node.Repeat | packages/olemop-behavior-tree/lib/node/Loop.js:23-31 | A Loop object does what one tick of its tree does. |
| BehaviorNodes.Node.DoAction | packages/olemop-behavior-tree/lib/node/Sequence.js:17-40 | Every node object answers what one tick of its tree answers and is left in the state after it; nothing outside its subtree changes. |
| BehaviorNodes.MakeIf | packages/olemop-behavior-tree/lib/node/If.js:15-21 | An If is a Sequence of a condition and the action. |
| ProtocolTexts.UnitRoundTrip | packages/olemop-protocol/lib/protocol.js:46-54 | The one, two or three bytes of a 16-bit unit are read back as that unit. |
| ProtocolTexts.UnitCut | packages/olemop-protocol/lib/protocol.js:82-91 | A unit that is cut at the end is read with zeros for what is missing. |
| ProtocolTexts.Codes | packages/olemop-protocol/lib/protocol.js:46-54 | One byte up to 0x7f, two up to 0x7ff, three above. |
| ProtocolTexts.TextRoundTrip | packages/olemop-protocol/lib/protocol.js:43-105 | Every string of 16-bit units is read back, lone surrogates included. |
| ProtocolTexts.StrEncode | packages/olemop-protocol/lib/protocol.js:43-63 | Writes the bytes of the units into a buffer of three bytes a unit and cuts it. |
| ProtocolTexts.StrDecode | packages/olemop-protocol/lib/protocol.js:76-95 | Reads units from any bytes; bytes past the end count as zero. |
| ProtocolPackages.PackageRoundTrip | packages/olemop-protocol/lib/protocol.js:129-164 | A package with a body under 2^24 bytes is read back from wherever it stands. |
| ProtocolPackages.PackagesRoundTrip | packages/olemop-protocol/lib/protocol.js:150-166 | Packages put one behind the other are taken apart again, in order and to the last byte; empty bodies come back as null. |
| ProtocolPackages.Encode | packages/olemop-protocol/lib/protocol.js:129-141 | Type, three bytes of length and the body. |
| ProtocolPackages.Decode | packages/olemop-protocol/lib/protocol.js:150-166 | The packages in any bytes, a single one unwrapped. |
| ProtocolPackages.SendBatch | packages/olemop/lib/connectors/hybridsocket.js:87-94 | The data packages of the messages one behind the other. |
| ProtocolPackages.BatchArrives | packages/olemop/lib/connectors/hybridsocket.js:87-94 | The receiver of a batch of non-empty messages gets exactly those messages, in packages of type 4. |
| ProtocolMessages.MsgHasId | packages/olemop-protocol/lib/protocol.js:299-301 | Requests (0) and responses (2) have an id. |
| ProtocolMessages.MsgHasRoute | packages/olemop-protocol/lib/protocol.js:303-306 | Requests (0), notifications (1) and pushes (3) have a route. |
| ProtocolMessages.ShiftWraps | packages/olemop-protocol/lib/protocol.js:252-257 | A part of an id is shifted in 32 bits, and the shift counts modulo 32. |
| ProtocolMessages.CaculateMsgIdBytes | packages/olemop-protocol/lib/protocol.js:308-315 | The number of bytes by shifting 32 bits; for ids below 2^31 the number that writing the id takes. |
| ProtocolMessages.IdBytesExactly | packages/olemop-protocol/lib/protocol.js:308-346 | That number is the one that writing takes exactly for ids below 2^31, and those below 2^35 whose low 32 bits are a number of at least 2^28. |
| ProtocolMessages.EncodeMsgId | packages/olemop-protocol/lib/protocol.js:332-346 | Writes the id, seven bits a byte, and nothing else. |
| ProtocolMessages.EncodeMsgRoute | packages/olemop-protocol/lib/protocol.js:348-367 | Writes the route code or the route text behind its length, and nothing else. |
| ProtocolMessages.Encode | packages/olemop-protocol/lib/protocol.js:178-227 | The buffer of the precomputed length is filled exactly; an unknown type, a route that is no number or too large, or a route of more than 255 bytes is an exception. |
| ProtocolMessages.IdReadBack | packages/olemop-protocol/lib/protocol.js:248-258 | An id below 2^31 is read back and its bytes are used up, whatever follows. |
| ProtocolMessages.RouteReadBack | packages/olemop-protocol/lib/protocol.js:260-275 | A route is read back and its bytes are used up, whatever is before and after it. |
| ProtocolMessages.MessageRoundTrip | packages/olemop-protocol/lib/protocol.js:178-285 | Decoding an encoded message gives it back for all four types and both flags, with id 0 and no route where the type has none. |
| ProtocolMessages.Decode | packages/olemop-protocol/lib/protocol.js:235-285 | The message in any bytes, or an exception for a body of negative length. |

## Left out

Big integers:

- Division.DivRemTo: the quotient digit is estimated in exact arithmetic, not with the rounding of doubles; the rest of the division only needs an estimate between the true digit and B. The test for a leading divisor digit of zero is left out, since normalising makes that digit at least 2^27. The quotient must be a number of its own, apart from the dividend.
- BigIntegers.BigInteger.FromInt: integers below -1 are excluded, where the code reads a name that is not defined.
- Division.EstimateBounds: says nothing of the rounding of doubles, for the same reason as DivRemTo.
- Division.QuotientDigit: its estimate is the exact one.
- Division.Mod: the modulus is positive and not the dividend object itself, as in every call.
- ModInverse.ModInverse: that the result is in 0..m-1 is promised for small x only, because it is false of the code in general, for odd and for even m; which larger x and m come out in range is not characterised. A zero argument is excluded, on which the loop for even v does not end, and so are a modulus below 2 and the modulus object as argument.
- ModPow.ModPow: moduli of more than 2^28 - 8 digits are excluded, because the error of a Barrett estimate is bounded by a digit; negative exponents are excluded, on which the code reads digits of the sign, and the modulus object as base.
- Barrett.BarrettReduce: the two scratch numbers that the code keeps between calls are made anew for each call, and dAddOffset is modelled for the one call that is made of it.
- Barrett.MultiplyUpperTo: the lengths of the factors and the cut are those of the calls that the reduction makes.
- Barrett.MultiplyLowerTo: the same.
- ModPow.Reducer.MakeBarrett: moduli of more than 2^28 - 8 digits are excluded, as for ModPow.
- ModPow.Reducer.Convert: the number is not the modulus object itself.
- ModPow.Exp: the same for the base.
- ModPow.ModPowInt: the same.
- ModPow.Reducer.MontConvert: the shifted zero is clamped before it is divided.
- ModPow.Scan: the first window is taken before the loop instead of under a flag.
- Conversion from and to text, bitwise operations, gcd, powers without a modulus, random primes and primality, and the rest of the RSA file (padding, keys in PEM form, signatures).

Scheduler:

- CronTriggers.CronTrigger.NextExcuteTime: hours are 0..23, although the limit table of the code lets 24 through, with which setHours would roll the day over after it was matched. Times are whole seconds, in a time zone without clock changes. A trigger that was never given a fire time is excluded.
- Schedules.Scheduler.ScheduleJob: the trigger is given decoded, and a cron trigger must have a first fire time; the second in which the clock is read is a parameter. Job functions are taken not to schedule or cancel from inside their run.
- Schedules.Job.Run: the call of the job function and the exception caught from it are left out; the count of its runs is what the scheduler depends on.
- CronTriggers.CronTrigger.SettleHour: hours are 0..23, as for NextExcuteTime.
- Schedules.Scheduler.ExcuteJob: the clock is bounded during the call and never goes back. Counting and logging late jobs is left out.
- Parsing the cron text by regular expression, and the unused decoder of cron triggers.

Membership:

- Watchdogs.Watchdog.Notify: the acknowledgements of the monitors and their time-out are left out; they are only logged.
- Memberships.Convergence: channels of live connections keep the order of their messages and lose none; messages that are pushed again after a reconnect, and the requests to unsubscribe and to query, which no monitor sends, are left out. A second process under a connected id is announced and may leave, but its own tables and its subscription are left out. A process registers first with empty tables, and reconnects only after the master has seen it disconnect.
- Networks.Network.Duplicate: the connection and the subscription of the second process, as for Convergence.
- Networks.Network.Leave: the second process differs in its record from the first; if it does not, the master takes its leaving for that of the first, which is Disconnect.
- Applications.Application.AddServers: the events that tell other components of the change.

Codec:

- ProtoEncoders.Encode: the size of the buffers is a parameter that must be large enough; twice the length of the JSON text, which the code takes, is not always. Values that do not fit the schema, which raise exceptions or write nothing, are excluded. A message type with the name of a primitive type is not checked.
- ProtoEncoders.EncodeMsg: the values fit the schema, as for Encode.
- ProtoEncoders.EncodeProp: the same.
- ProtoEncoders.EncodeTag: tags are below 2^28, where the 32-bit shift of the code overflows.
- ProtoEncoders.EncodeArray: the same.
- ProtoEncoders.CheckMsg: the same.
- ProtoRoundTrips.DecodeEncode: numbers are integers of 32 bits, floating-point numbers are their bytes, strings their UTF-8 bytes; uInt64 and sInt64 are known as packed types but have no encoding. Properties are visited in one order, which is not the case for names that look like integers.
- ProtoParsers.ParseObject: a field whose value is an object instead of a tag is skipped, and fields with the names that the parser uses for its own tables are not modelled.

Routing:

- ConsistentHashes.ConsistentHash.AddNode: the hash is a function to natural numbers; that points do not collide is a condition of what is promised, which holds if the hash does not collide. Nodes are their ids.
- ConsistentHashes.ConsistentHash.RemoveNode: the same condition, for the nodes and the one that is removed.
- WeightedRoundRobins.Client.WrrRoute: a server without a weight counts as weight 0, and every listed server has a record. The default, random, plain round-robin and least-active routes are left out.

Behaviour trees:

- BehaviorNodes.Node.Together: the children that are waited for are kept as positions, not as references. The constructor of the code cannot be given POLICY_FAIL_ON_ONE, whose value 0 sends it to a name that is not imported; the policy is a field here.
- BehaviorTrees.TicksRefineEval: actions and conditions are scripts of what they do each time they are started, so they do not depend on a shared blackboard; no node is shared by two parents.

Framing:

- ProtocolMessages.Encode: ids are below 2^31; IdBytesExactly says for which ids the shift of the length and the division of the writer agree.
- ProtocolTexts.StrEncode: the path of the browser; on Node.js both directions are left to the Buffer class.

The other packages (synchronisation, RPC transport, connectors, admin console, loggers, robots, the duplicates of the codec in the clients) are input and output around libraries that are not part of this model.
