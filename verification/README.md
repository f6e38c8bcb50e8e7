# Recognition, addressing and scheduling cores of a network scanner

This project models five cores of the scanner in Dafny and proves what they are for.

**The PEG library** (`Peg`, `Analysis`, `Machine`, `Matcher`, `CodeGen`, `CodeGenCorrect`, `Compiler`, `Peephole`,
`LiteralPass`, `Shape`, `VerifyGrammar`, `Emptiness`, `Heads`, `Occurrences`, `LookBehind`, `Termination`, `FirstSets`,
`FixAccepted`, `Lpeg`, `CodeExamples`, the readings of two lines of the text in `LoopRepair`, `LoopUnderOpt` and
`StepBack`, the limits of the check in `BehindLoop`, and `FlatTree`, `TreeMeaning`, `Star`, `CharsetBytes`). Patterns are trees; `Peg.Means` says what a tree does at a
position of a subject, with absolute positions because of look-behind. `CodeGen.Gen` is the code of a tree as a
function; `Compiler.CompileState` is the generator that appends to a code array and fills in offsets later, shown to
leave exactly that code. `Machine.Step` is one instruction of the matching machine with its one stack of calls and
choices. The main line is: an accepted pattern with safe look-behind ends on every input (`Termination.PatternEnds`),
its code does what it means (`CodeGenCorrect.PatternCorrect`), the last pass keeps that
(`Compiler.CompileState.Peephole`, `PeepholeAsWritten`), so compiling and matching returns what the pattern means
(`Lpeg.LpMatch`). The statement about code is relative to a follow set and to the open choice: code for p may fail
although p succeeds if the next character is outside the follow set, and under `opt` it may leave by the open choice.
At the top both vanish.

**Target blocks** (`Bits`, `Bytes`, `IPv4Ranges`, `RangeText`, `TargetText`, `IPv6Netmask`): netmask closure, enumeration,
printing and parsing.

**Idle scan** (`IdleScan`): divide and conquer with an oracle that may count anything. What is proved for every oracle is
evidence: each port marked was counted alone as 1, each port passed over lies in a group counted as 0.

**DNS** (`DnsName`, `DnsPacket`, `DnsPtr`, `DnsScheduler`): names with compression, requests, reverse names, and the
request queues with their timeouts.

**Fingerprint rounds** (`FPRounds`): retransmission of the timed probes.

Where the source updates state in place the model does too: `CompileState`, `NetBlockIPv4Ranges`, `NetBlockIPv6Netmask`,
`Scanner`, `Scheduler` and `FPHost` are classes whose methods are proved against specification functions and predicates,
and in-place algorithms keep their arrays. Loops of the source that were too large for one proof are split into methods
in the same order.

## Where the text departs from its intent

Two lines of the code generator do not do what they are for. `CodeGen.Mode.asWritten` chooses between the text and its
repair. The repaired code of every pattern accepted as it was built does what the pattern means (`Lpeg.PrepCompile`). The
text of both lines does for the accepted patterns of `Lpeg.Preparable`, whose two conditions, on the right associative tree
that is compiled, are exact as said here. That matching ends needs one condition more, on the grammar alone, the third
bullet (`Lpeg.Matchable`).

- lpeg.c:1656 passes `opt` to the body of a loop that a test guards, though the enclosing choice does not end where the
  body ends. `LoopUnderOpt.LiteralLoopIsWrong` gives a pattern for which the literal code stops too early.
  `LoopRepair.LiteralIsRepaired` and `LiteralPattern` say exactly when the literal code is the repaired one
  (`CodeGen.LoopsSafe`, and `RulesSafe` where the code of the grammar is emitted). The condition is exact for the code, not
  for its results: `LoopUnderOpt.SharingCanBeHarmless` gives a pattern outside it that still matches correctly on every
  subject.
- lpeg.c:1846 steps back by one slot after a jump became a commit, and then goes on by the size of the word it lands on,
  where the comment means to visit the instruction again. `LiteralPass` models the first byte of every slot, in both byte
  orders. `StepBack.LiteralPassLeavesCode` gives a pattern on whose code the text leaves the code array.
  `LiteralPass.LiteralPassVisits` says exactly when the text visits the instructions and nothing else
  (`LiteralPass.PassSafe`), and `LiteralPassLeaves` that it then leaves the code of the repaired pass.
- The check of a grammar does not look into look-behind, on the ground that it cannot have calls (lpeg.c:3055). But
  `lp_behind` (lpeg.c:2746-2752) only asks for a fixed length, and a predicate in its body counts for none, whatever it
  calls (lpeg.c:1130). So acceptance does not make matching end: `BehindLoop.AcceptedNeedNotEnd` and `CodeNeverHalts` give an
  accepted grammar and a subject on which it runs for ever. `Termination.PatternEnds` holds if no rule reaches itself through
  a call inside a look-behind (`LookBehind.BehindSafe`); without calls in look-behind that is so. The converse is not
  claimed: whether such a call is ever made depends on what the rest of the grammar matches, over all subjects, which no
  condition on its calls decides. The analysis `getfirst` does walk look-behind (lpeg.c:1240-1246) and may not return either
  (`BehindLoop.GetfirstNeverReturns`); there the condition is exact (`FirstSets.GetfirstReturns`).
- lpeg.c:3084 drops the `nullable` found so far at a nested grammar; nested grammars are not modelled.
- With a least group size above 5, `adjust_idle_timing` can set the group size below it after a right count
  (`IdleScan.AdjustedInRange`); the scan still covers every port once.
- In `idle_treescan` the tests that would forget a port after a retry (idle_scan.cc:1273-1274 and 1298-1299) can never hold,
  as the count they compare was replaced just before. They are kept in the model and change nothing.
- Reading an IPv6 reverse name takes more characters for digits than the hexadecimal ones (nmap_dns.cc:1733-1748): the seven
  from `:` on, and the ten from `W` on, though not `w` to `z` (`DnsPtr.NibbleReads`, `CaseMattersExactly`).
- A question about the root that ends a message is refused (nmap_dns.cc:1979), as one byte more is asked for than it has
  (`DnsPacket.RootQuestion`).
- `FPProbe::resetTimeSent` is never called, so a closed round can be followed at once by another one that closes empty. The
  result of the rounds is not affected.

## Model

| member | source | states |
|---|---|---|
| `Peg.FuelIrrelevant` | reference/nmap/lpeg.c:160-176 | The meaning of a tree at a position does not depend on how deep it was evaluated, once evaluation ends |
| `Peg.MeaningIsUnique` | reference/nmap/lpeg.c:160-176 | A tree has at most one outcome (end position or failure) at each position of each subject |
| `Analysis.NullableSound` | reference/nmap/lpeg.c:1084-1118 | A pattern that can match without consuming anything is reported nullable, through rule calls too |
| `Analysis.NofailSound` | reference/nmap/lpeg.c:1084-1118 | A pattern reported nofail never fails, on any subject |
| `Analysis.NofailIsNullable` | reference/nmap/lpeg.c:1066-1118 | Whatever is reported nofail is also reported nullable |
| `Emptiness.NullableMeans` | reference/nmap/lpeg.c:1066-1118 | On an accepted grammar a tree is reported nullable if and only if, with every predicate and look-behind in it and in the rules taken to succeed, it matches the empty subject |
| `Emptiness.NofailMeans` | reference/nmap/lpeg.c:1066-1118 | It is reported nofail if and only if it still matches the empty subject with these taken to fail, an and predicate answering as its body |
| `VerifyGrammar.UnfoldedIs` | reference/nmap/lpeg.c:1084-1118 | For every grammar and depth of calls: the answers of the analysis are what the tree with its calls unfolded does on the empty subject |
| `Analysis.FixedLenXSound` | reference/nmap/lpeg.c:1125-1158 | The running length of the analysis, through sequences, choices and calls, is the length consumed by every match |
| `Analysis.FixedLenSound` | reference/nmap/lpeg.c:1125-1158 | A pattern of fixed length n consumes exactly n on every success |
| `Analysis.FixedLenExactly` | reference/nmap/lpeg.c:1125-1158 | A length is found exactly for the trees that have one, read off their parts through at most MAXRULES calls in a row |
| `Analysis.FirstSound` | reference/nmap/lpeg.c:1161-1250 | If p matches before character c then c is in first(p, follow), or p consumed nothing and c is not in follow; a pattern not flagged fails at the end of the subject |
| `Analysis.NofailFirstIsFull` | reference/nmap/lpeg.c:1161-1250 | The first set of a nofail pattern with a full follow set is full |
| `Heads.FirstMeans` | reference/nmap/lpeg.c:1175-1250 | A character is in the first set if and only if the head of the pattern, what it asks of the next character, matches it; `e` is set if and only if the head matches the end of the subject |
| `Analysis.HeadFailNeedsChar` | reference/nmap/lpeg.c:1257-1279 | A headfail pattern is never flagged as matching at the end of the subject, so the test before it is always emitted |
| `Analysis.HeadFailExact` | reference/nmap/lpeg.c:1253-1279 | For a headfail pattern the first set is exact: it fails if and only if the subject ends or the next character is outside the set |
| `Analysis.HeadFailMatches` | reference/nmap/lpeg.c:1253-1279 | A headfail pattern does not fail before a character of its first set |
| `Machine.NeverStuck` | reference/nmap/lpeg.c:3495-3627 | A run that halts violates no assertion of the interpreter at any of its steps |
| `Machine.MeetHalted` | reference/nmap/lpeg.c:3495-3627 | If the run from a state meets a halted state, it halts with that result |
| `Matcher.Match` | reference/nmap/lpeg.c:3486-3627 | The interpreter loop, with p, s and the stack updated instruction by instruction, ends with the result of the run |
| `Matcher.Span` | reference/nmap/lpeg.c:3561-3568 | The span loop stops at the end of the longest run of characters of the set |
| `Matcher.DropCalls` | reference/nmap/lpeg.c:3616-3627 | After a failure pending calls are dropped down to the newest choice, which is resumed |
| `CodeGen.SameCodeUnderOpt` | reference/nmap/lpeg.c:1544-1679 | Code that reuses no open choice is the same with and without `opt` |
| `CodeGen.RepairedLoopsAreSafe` | reference/nmap/lpeg.c:1643-1679 | When loop bodies are compiled without `opt` no loop reuses the choice of an enclosing pattern |
| `CodeExamples.HeadFailChoice` | reference/nmap/lpeg.c:1544-1562 | No choice is left open for a headfail alternative: the whole code of a pattern |
| `CodeExamples.Optional` | reference/nmap/lpeg.c:1544-1562 | No jump where the second alternative has no code |
| `CodeExamples.DisjointChoice` | reference/nmap/lpeg.c:1544-1562 | No choice is left open where what starts the one alternative cannot start the other |
| `CodeExamples.OpenChoice` | reference/nmap/lpeg.c:1568-1578 | One is left open, after a test, where both can start alike |
| `CodeExamples.CharLoop` | reference/nmap/lpeg.c:1646-1649 | A loop over one character is a span |
| `CodeExamples.OpenLoop` | reference/nmap/lpeg.c:1661-1677 | A loop that anything may follow keeps a choice open and moves it every round |
| `CodeExamples.DisjointLoop` | reference/nmap/lpeg.c:1652-1660 | A loop is guarded by a test alone if what follows it cannot start another round |
| `CodeExamples.AndUnderTest` | reference/nmap/lpeg.c:1765-1777 | A test goes on to protect what comes after a part of length 0, and a predicate of fixed length steps back |
| `CodeExamples.NotHeadFail` | reference/nmap/lpeg.c:1689-1703 | Not a headfail pattern is coded as a test and a failure: five such patterns |
| `CodeExamples.NotSet` | reference/nmap/lpeg.c:1689-1703 | So is not a set, and not a choice of two characters, which starts with the same set |
| `CodeExamples.NotPair` | reference/nmap/lpeg.c:1689-1703 | Not two characters in a row needs a choice |
| `CodeExamples.AndNothing` | reference/nmap/lpeg.c:1587-1593 | And nothing is no code at all |
| `CodeExamples.Sets` | reference/nmap/lpeg.c:1455-1472 | A set is coded as a failure, a character, any character or a set |
| `CodeExamples.SetUnderTest` | reference/nmap/lpeg.c:1455-1472 | A set that was tested for is not compared again |
| `CodeGenCorrect.CharCorrect` | reference/nmap/lpeg.c:1428-1472 | Single character and set code, with the comparison spared after a dominating test, does what the pattern means |
| `CodeGenCorrect.TestStep` | reference/nmap/lpeg.c:1481-1502 | A test instruction goes on for a character of its set and jumps otherwise, in all four encodings of the set |
| `CodeGenCorrect.TestRefutes` | reference/nmap/lpeg.c:1481-1502 | When the test before some code fails, the pattern fails |
| `CodeGenCorrect.ChoiceCorrect` | reference/nmap/lpeg.c:1544-1579 | A choice, in each of its three codings, does what the pattern means, relative to follow set and open choice |
| `CodeGenCorrect.TestedChoiceCorrect` | reference/nmap/lpeg.c:1544-1562 | The choice coded with a test alone is correct: disjoint or headfail first parts need no backtracking |
| `CodeGenCorrect.SharedChoiceCorrect` | reference/nmap/lpeg.c:1563-1567 | An optional pattern that reuses the open choice by a partial commit is correct |
| `CodeGenCorrect.PlainChoiceCorrect` | reference/nmap/lpeg.c:1568-1578 | The choice with test, choice and commit is correct |
| `CodeGenCorrect.SpanCorrect` | reference/nmap/lpeg.c:1634-1649 | A repetition of a character class is one span: it ends where the span ends |
| `CodeGenCorrect.RepCorrect` | reference/nmap/lpeg.c:1643-1679 | A repetition, in each of its codings, does what the pattern means |
| `CodeGenCorrect.TestedLoopCorrect` | reference/nmap/lpeg.c:1652-1660 | The loop guarded by a test alone is correct |
| `CodeGenCorrect.LoopCorrect` | reference/nmap/lpeg.c:1661-1677 | The loop body with its partial commit matches as often as the pattern does |
| `CodeGenCorrect.NotCorrect` | reference/nmap/lpeg.c:1689-1703 | Both codings of the not predicate are correct |
| `CodeGenCorrect.AndCorrect` | reference/nmap/lpeg.c:1587-1603 | The and predicate is correct, also as pattern and step back for fixed lengths |
| `CodeGenCorrect.BehindCorrect` | reference/nmap/lpeg.c:1526-1530 | Look-behind code is correct |
| `CodeGenCorrect.SeqCorrect` | reference/nmap/lpeg.c:1765-1777 | Sequence code with a follow set for the first part, and the test kept for the second part when the first has length 0, is correct |
| `CodeGenCorrect.CallCorrect` | reference/nmap/lpeg.c:1710-1727 | A call of a rule, or the jump that replaced it, returns to its continuation with the outcome of the rule |
| `CodeGenCorrect.GrammarCorrect` | reference/nmap/lpeg.c:1734-1757 | The code of a grammar recognizes what its initial rule means |
| `CodeGenCorrect.Correct` | reference/nmap/lpeg.c:1784-1809 | Code of any tree, under any dominating test, follow set and open choice: it reaches its end with the outcome of the tree, or jumps to the open choice, or fails; it may also fail after an empty-handed success before a character outside the follow set |
| `CodeGenCorrect.PatternCorrect` | reference/nmap/lpeg.c:1866-1875 | The code of every accepted pattern halts with exactly the outcome of the pattern, on every subject from every position; for the literal text if no loop reuses an enclosing choice |
| `LoopUnderOpt.LiteralCode` | reference/nmap/lpeg.c:1643-1660 | The code that the text of the C generator gives for a concrete accepted pattern |
| `LoopUnderOpt.LiteralLoopIsWrong` | reference/nmap/lpeg.c:1656 | With `opt` passed to the loop body an accepted pattern can stop at another place than it means: a concrete pattern and subject |
| `LoopRepair.FewerUnderOpt` | reference/nmap/lpeg.c:1544-1679 | Under `opt` code never pushes more choices, and it pushes fewer if and only if some open choice is reused |
| `LoopRepair.FewerAsWritten` | reference/nmap/lpeg.c:1643-1660 | The literal code pushes no more choices than the repaired code, and fewer if some loop body, also in the rules of a grammar, reuses a choice |
| `LoopRepair.LiteralIsRepaired` | reference/nmap/lpeg.c:1656 | For every tree, also one that holds the grammar: the literal code is the repaired code if and only if no test-guarded loop under `opt`, in the tree or in the rules it brings along, has a body that reuses the open choice |
| `LoopRepair.LiteralPattern` | reference/nmap/lpeg.c:1656 | The same for the code of a whole pattern and its grammar |
| `LoopUnderOpt.SharingCanBeHarmless` | reference/nmap/lpeg.c:1643-1660 | The condition is not needed for right results: a concrete accepted pattern outside it whose literal code halts with what the pattern means on every subject |
| `Compiler.CompileState.AddInstruction` | reference/nmap/lpeg.c:1362-1386 | Appends an instruction with its offset word and set slots |
| `Compiler.CompileState.JumpToThere` | reference/nmap/lpeg.c:1389-1416 | Sets one offset so that the instruction jumps to the target, and changes nothing else |
| `Compiler.CompileState.JumpToHere` | reference/nmap/lpeg.c:1419-1421 | Sets one offset to jump to the end of the code |
| `Compiler.CompileState.EmitChar` | reference/nmap/lpeg.c:1428-1434 | Appends the character code that the model assigns under the dominating test |
| `Compiler.CompileState.EmitCharset` | reference/nmap/lpeg.c:1455-1472 | Appends the set code that the model assigns under the dominating test |
| `Compiler.CompileState.EmitTest` | reference/nmap/lpeg.c:1481-1502 | Appends the test, or nothing if the empty string must be accepted, and tells what the test knows |
| `Compiler.CompileState.EmitTree` | reference/nmap/lpeg.c:1784-1809 | Leaves in the array exactly the code assigned to the tree, appended to what was there |
| `Compiler.CompileState.EmitBehind` | reference/nmap/lpeg.c:1526-1530 | Appends the look-behind code |
| `Compiler.CompileState.EmitChoice` | reference/nmap/lpeg.c:1544-1579 | Appends the choice code, with all forward jumps filled in afterwards |
| `Compiler.CompileState.EmitTestedChoice` | reference/nmap/lpeg.c:1551-1562 | The choice with a test alone |
| `Compiler.CompileState.EmitPlainChoice` | reference/nmap/lpeg.c:1568-1578 | The choice with test, choice and commit |
| `Compiler.CompileState.EmitRep` | reference/nmap/lpeg.c:1643-1679 | Appends the repetition code |
| `Compiler.CompileState.EmitTestedLoop` | reference/nmap/lpeg.c:1652-1660 | The loop guarded by a test alone |
| `Compiler.CompileState.EmitPlainLoop` | reference/nmap/lpeg.c:1661-1677 | The loop with choice, or partial commit under `opt`, and partial commit |
| `Compiler.CompileState.EmitNot` | reference/nmap/lpeg.c:1689-1703 | Appends the not predicate |
| `Compiler.CompileState.EmitAnd` | reference/nmap/lpeg.c:1587-1603 | Appends the and predicate |
| `Compiler.CompileState.EmitGrammar` | reference/nmap/lpeg.c:1734-1750 | Appends call, jump and the rules, then closes the calls |
| `Compiler.CompileState.EmitRules` | reference/nmap/lpeg.c:1734-1750 | Appends the rules and records where each starts |
| `Compiler.CompileState.CorrectCallsIn` | reference/nmap/lpeg.c:1710-1727 | The in-place pass turns every open call into the call or the tail jump that the model assigns |
| `Compiler.CompileState.FinalTargetOf` | reference/nmap/lpeg.c:1508-1512 | Follows plain jumps to the last one |
| `Compiler.CompileState.OptimizeAt` | reference/nmap/lpeg.c:1821-1850 | One instruction is rewritten in place as the model says, and it tells when a jump became a commit |
| `Compiler.CompileState.Peephole` | reference/nmap/lpeg.c:1821-1860 | With a jump visited again after it became a commit, as the comment of the text intends: the in-place pass ends, leaves every instruction rewritten as if visited once, keeps every result from the start, and leaves all labels and jumps threaded |
| `Compiler.CompileState.PeepholeAsWritten` | reference/nmap/lpeg.c:1821-1860 | The text itself, with its step back by one slot and its step forward by the size of the word found there: where every such word begins with the opcode of a one-slot instruction, it ends after the last instruction and leaves the same code |
| `VerifyGrammar.Verify` | reference/nmap/lpeg.c:3090-3108 | Accepts a grammar if and only if no rule in use reaches itself by left calls and no repetition in use has a body that can match the empty string; what can is said by meaning (`UnfoldedIs`), and where calls and loops stand by their places (`Occurrences`) |
| `VerifyGrammar.AcceptedHasNoCycle` | reference/nmap/lpeg.c:3047-3099 | Acceptance rules out every left-call cycle |
| `VerifyGrammar.RejectedHasCycle` | reference/nmap/lpeg.c:3047-3099 | A rule rejected for too many left calls lies on a path into a left-call cycle |
| `VerifyGrammar.Pigeonhole` | reference/nmap/lpeg.c:3028-3044 | More entries than rules repeat a rule, so the bound of MAXRULES is enough |
| `VerifyGrammar.ReportsNullable` | reference/nmap/lpeg.c:3047-3087 | The nullable answer of the rule walk covers all that can be empty |
| `VerifyGrammar.ReportedCanBeEmpty` | reference/nmap/lpeg.c:3047-3087 | Whatever the rule walk reports nullable can be empty |
| `VerifyGrammar.EmptyMatch` | reference/nmap/lpeg.c:1084-1118 | A pattern that is reported nullable in no way never matches without consuming |
| `VerifyGrammar.DepthEnough` | reference/nmap/lpeg.c:1084-1118 | On an accepted grammar the unbounded recursion of nullable and nofail ends, and the depth bound of the model changes no answer |
| `VerifyGrammar.FirstDepthEnough` | reference/nmap/lpeg.c:1175-1250 | The same for first sets, of which look-behind and not are no part; for the recursion of getfirst into them see `FirstSets` |
| `VerifyGrammar.HeadFailDepthEnough` | reference/nmap/lpeg.c:1257-1279 | The same for headfail |
| `VerifyGrammar.NullableExact` | reference/nmap/lpeg.c:1084-1118 | On an accepted grammar reported nullable is exactly can-be-empty |
| `VerifyGrammar.LoopsExact` | reference/nmap/lpeg.c:3008-3025 | The check of loops finds exactly the repetitions whose body can be empty |
| `Occurrences.LeftCallExactly` | reference/nmap/lpeg.c:3047-3087 | A left call is a call, in a predicate or a repetition too but not in a look-behind, with nothing before it on the way that must consume |
| `Occurrences.HasCallExactly` | reference/nmap/lpeg.c:3090-3108 | A rule is called in a tree if and only if a call of it stands at some place in it |
| `Occurrences.EmptyLoopExactly` | reference/nmap/lpeg.c:3008-3025 | A tree has no empty loop if and only if at no place in it stands a repetition whose body can be empty |
| `Occurrences.BehindCallExactly` | reference/nmap/lpeg.c:3054-3056 | A call inside a look-behind is one with a look-behind on the way to it |
| `Occurrences.FollowExactly` | reference/nmap/lpeg.c:1175-1250 | The analysis getfirst goes on to exactly the rules called with nothing before them that must consume, in look-behinds too |
| `Termination.CalledEnds` | reference/nmap/lpeg.c:3008-3025 | Matching a tree ends on every input when the rules it calls end everywhere and no repetition body can be empty |
| `Termination.RuleTreeEnds` | reference/nmap/lpeg.c:3047-3108 | Matching any tree of an accepted grammar ends if no rule reaches itself through a call inside a look-behind: by the rank of the rules called, then input left, then left calls left, then tree size |
| `Termination.RuleEnds` | reference/nmap/lpeg.c:3047-3108 | So does matching any rule in use; on the empty subject whatever its look-behinds call |
| `Termination.PatternEnds` | reference/nmap/lpeg.c:3090-3108 | Matching an accepted pattern ends on every subject from every position if no rule of its grammar reaches itself through a call inside a look-behind |
| `BehindLoop.AcceptedNeedNotEnd` | reference/nmap/lpeg.c:3054-3056 | The condition is not met by every accepted grammar: x <- B('a' #x) passes the check, and no amount of fuel ends it on "a" from position 1 |
| `BehindLoop.CodeNeverHalts` | reference/nmap/lpeg.c:3486-3627 | The generated code of that grammar, before the last pass, runs for ever on that subject, in both readings |
| `FirstSets.GetfirstReturns` | reference/nmap/lpeg.c:1175-1250 | The recursion of getfirst, which also walks into look-behind and `not`, returns on every rule of an accepted grammar if and only if no rule comes back to itself by left calls, those inside a look-behind included; from a rule that does it never returns |
| `FirstSets.GetfirstIsFirst` | reference/nmap/lpeg.c:1175-1250 | Where no rule does, it returns the first set, for every tree over the grammar |
| `FirstSets.SafeHasNoRoundWalk` | reference/nmap/lpeg.c:1175-1250 | On an accepted grammar none does if no rule reaches itself through a call inside a look-behind |
| `BehindLoop.GetfirstNeverReturns` | reference/nmap/lpeg.c:1240-1246 | For x <- B(#x 'a') / 'b', which is accepted, getfirst never returns on the first alternative |
| `Peephole.RewriteKeeps` | reference/nmap/lpeg.c:1821-1860 | One rewriting of the code keeps the result of the run from every state, although stacks hold labels that are not threaded yet |
| `Peephole.RewriteSameResults` | reference/nmap/lpeg.c:1821-1860 | One rewriting keeps every result from the start |
| `Peephole.RewriteNoJumpCycle` | reference/nmap/lpeg.c:1821-1860 | Rewriting makes no cycle of plain jumps |
| `Peephole.RewriteLabelsInside` | reference/nmap/lpeg.c:1821-1860 | Rewriting keeps all labels inside the code |
| `Peephole.RewriteThreads` | reference/nmap/lpeg.c:1821-1860 | After its rewriting an instruction leads to no plain jump |
| `LiteralPass.LiteralPassVisits` | reference/nmap/lpeg.c:1821-1860 | On any code of whole instructions without a cycle of jumps: the text of the pass visits exactly the instructions if and only if before every jump that becomes a commit there is a slot that begins with the opcode of a one-slot instruction |
| `LiteralPass.LiteralPassLeaves` | reference/nmap/lpeg.c:1821-1860 | Under that condition the text leaves the code of the pass that revisits the jump |
| `LiteralPass.OptimizedWorks` | reference/nmap/lpeg.c:1821-1860 | Rewriting every instruction once, first to last, keeps every result from the start and threads all labels and jumps |
| `LiteralPass.SetByteBits` | reference/nmap/lpeg.c:106-141 | The bits of the bytes of a set are its characters |
| `LiteralPass.OffsetByteOf` | reference/nmap/lpeg.c:303-311 | The first byte of an offset is the lowest or the highest byte of its two's complement |
| `LiteralPass.PassSafeAt` | reference/nmap/lpeg.c:1508-1512 | How far chains of jumps are followed does not matter to the condition |
| `StepBack.LiteralPassLeavesCode` | reference/nmap/lpeg.c:1846 | The text of the pass fails on an accepted pattern without captures or grammar whose loops share no choice: on 30 slots of code it goes on to slot 32, after it took a word of a set for an instruction |
| `Shape.RuleStartSettles` | reference/nmap/lpeg.c:1710-1757 | Tail jumps between rules of an accepted grammar form no cycle |
| `Shape.NeatTree` | reference/nmap/lpeg.c:1784-1809 | Code of a tree jumps only inside itself or to its end, its jumps make progress, and its calls are of rules in use |
| `Shape.NeatGrammar` | reference/nmap/lpeg.c:1710-1757 | The same for the code of a grammar after its calls were closed |
| `Shape.PatternShape` | reference/nmap/lpeg.c:1866-1875 | Generated code has no cycle of plain jumps, all labels inside and whole instructions only, as the last pass needs |
| `Lpeg.RepairedIsCompilable` | reference/nmap/lpeg.c:1643-1679 | With loop bodies compiled without `opt` and the jump revisited in the last pass, every accepted pattern can be compiled |
| `Lpeg.Compile` | reference/nmap/lpeg.c:1866-1875 | Compiled and optimized code halts with the outcome of the pattern on every subject from every position: for every accepted pattern in the repaired reading, and for the text of both the loop and the last pass where no loop shares a choice and every step back finds a one-slot opcode |
| `Lpeg.PrepCompile` | reference/nmap/lpeg.c:3147-3152 | Code compiled from the tree after it was made right associative does what the tree meant as it was built, in both readings; the pattern only has to be accepted as it was built |
| `Lpeg.LpMatch` | reference/nmap/lpeg.c:3201-3219 | Compiling and matching a pattern that was accepted as it was built, and of which no rule reaches itself through a call inside a look-behind, ends and returns what it means at the position of the subject nearest to the one asked for, in both readings |
| `Lpeg.AcceptedIsMatchable` | reference/nmap/lpeg.c:3147-3152 | With the two lines repaired, every pattern that was accepted as it was built can be compiled, and matched if no rule reaches itself through a call inside a look-behind |
| `Lpeg.InitPosition` | reference/nmap/lpeg.c:3183-3195 | The initial position is the position of the subject, the only one, that is nearest to the one asked for, counted from 1 or back from the end |
| `Lpeg.MeaningExists` | reference/nmap/lpeg.c:3090-3108 | Every such pattern has an outcome everywhere |
| `Lpeg.FirstSetsReturn` | reference/nmap/lpeg.c:1175-1250 | For such a pattern every call of getfirst in the compiler, on the right associative rules, returns the first set of the model |
| `Lpeg.StackDiscipline` | reference/nmap/lpeg.c:3495-3627 | Wherever matching ends, in every state of the run a return finds a call, a commit a choice, a failure a choice or the giveup entry, and the end exactly the base entry |
| `FlatTree.RotateInPlace` | reference/nmap/lpeg.c:2191-2203 | Moving the inner first child down and writing two nodes turns the layout of (t11 op t12) op t2 into that of t11 op (t12 op t2) |
| `FlatTree.CorrectAssociativity` | reference/nmap/lpeg.c:2191-2203 | Ends, keeps the size and everything outside, and leaves the layout of the rotated tree |
| `FlatTree.FinalFix` | reference/nmap/lpeg.c:2213-2239 | Leaves in place the layout of the tree with all sequences and choices right associative |
| `FlatTree.FixedIsRightAssociative` | reference/nmap/lpeg.c:2183-2239 | No sequence has a sequence, and no choice a choice, as first child afterwards |
| `TreeMeaning.AssocSeq` | reference/nmap/lpeg.c:2183-2203 | t11 (t12 t2) and (t11 t12) t2 have the same outcomes |
| `TreeMeaning.AssocChoice` | reference/nmap/lpeg.c:2183-2203 | The same for choices |
| `TreeMeaning.FixKeepsMeaning` | reference/nmap/lpeg.c:2213-2239 | Making a pattern and all its rules right associative keeps every outcome and adds none |
| `FixAccepted.FixCheckAux` | reference/nmap/lpeg.c:1084-1118 | Making trees and rules right associative changes no answer of nullable and nofail, at any depth of calls |
| `FixAccepted.FixFixedLen` | reference/nmap/lpeg.c:1125-1158 | Nor any fixed length |
| `FixAccepted.FixAlike` | reference/nmap/lpeg.c:2213-2239 | Nor the calls of a tree, those it makes before it consumes anything or inside a look-behind, its empty loops, or whether it is well formed |
| `FixAccepted.GrammarAcceptedFixed` | reference/nmap/lpeg.c:3135-3137 | A grammar is accepted with its rules as they were built if and only if it is with its rules made right associative, which is how it is verified |
| `FixAccepted.BehindSafeFixed` | reference/nmap/lpeg.c:2213-2239 | Nor whether a rule reaches itself through a call inside a look-behind |
| `FixAccepted.AcceptedFixed` | reference/nmap/lpeg.c:3147-3151 | A pattern is accepted as it was built if and only if it is in the form in which it is compiled |
| `Star.AtLeastMeans` | reference/nmap/lpeg.c:2638-2652 | p^n matches as often as it can; it succeeds after all matches if they are at least n, and fails if they are fewer |
| `Star.AtMostMeans` | reference/nmap/lpeg.c:2653-2665 | p^-n matches as often as it can but at most n times, and never fails |
| `Star.BuildAtLeast` | reference/nmap/lpeg.c:2642-2652 | Fills exactly its array of (n+1)(size+1) nodes with n copies in sequence and a repetition |
| `Star.BuildAtMost` | reference/nmap/lpeg.c:2653-2665 | Fills exactly its array of n(size+3)-1 nodes with nested choices of at most n copies |
| `Star.LpStar` | reference/nmap/lpeg.c:2638-2668 | Refuses exactly the loop bodies that match the empty subject once the predicates in them and in the rules are taken to succeed, a body that holds a grammar included; else builds the layout of the repetition, which is again a pattern that can be compiled |
| `Star.StarAccepted` | reference/nmap/lpeg.c:2638-2668 | The nullable check of a loop body is exact by meaning, and the repetition of an accepted pattern that passes it has no empty loop |
| `Star.AtLeastSlots` | reference/nmap/lpeg.c:2643 | The computed size of p^n is the size of its tree |
| `Star.AtMostSlots` | reference/nmap/lpeg.c:2656-2657 | The computed size of p^-n is the size of its tree |
| `Star.SeqOfMeans` | reference/nmap/lpeg.c:2346-2359 | A sequence of single characters matches exactly where the subject spells them |
| `Star.FillSeq` | reference/nmap/lpeg.c:2350-2359 | Fills the layout of such a sequence, and no other slot |
| `Star.NumMeans` | reference/nmap/lpeg.c:2362-2384 | A number matches that many characters; a negative one matches, without consuming, where fewer are left |
| `Star.NumTree` | reference/nmap/lpeg.c:2368-2384 | The layout of a number as a pattern |
| `CharsetBytes.CharsetTypeOf` | reference/nmap/lpeg.c:955-994 | One pass over 32 bytes tells empty, full and single-character sets from all others, and finds the character |
| `CharsetBytes.Disjoint` | reference/nmap/lpeg.c:1013-1016 | The bytewise test is disjointness of the sets |
| `CharsetBytes.Equal` | reference/nmap/lpeg.c:1004-1007 | The bytewise test is equality of the sets |
| `CharsetBytes.Complement` | reference/nmap/lpeg.c:999-1001 | Inverting the bytes complements the set |
| `CharsetBytes.Union` | reference/nmap/lpeg.c:2617-2624 | Bytewise or is the union, as in the choice of two sets |
| `Bits.AgreeStep` | reference/nmap/TargetGroup.cc:449-470 | Two octets agree under a mask with one more bit given up exactly if they agreed before, or do after inverting that bit when it is not masked |
| `Bits.AgreeIsAnd` | reference/nmap/TargetGroup.cc:449-470 | Agreeing on the bits of a mask is having equal results under it |
| `Bits.AndHighBits` | reference/nmap/TargetGroup.cc:651-656 | A mask of high bits rounds down to a multiple of a power of two |
| `Bytes.PrefixByBytes` | reference/nmap/TargetGroup.cc:472-500 | Two addresses share all but their low bits exactly when each byte does, for its share of the bits |
| `IPv4Ranges.ClosingStep` | reference/nmap/TargetGroup.cc:449-470 | Pairing chunks at one unmasked bit gives up exactly that bit |
| `IPv4Ranges.ApplyNetmaskOctet` | reference/nmap/TargetGroup.cc:449-470 | For every 8-bit mask the chunk loops close an octet set: it then holds exactly the octets equal under the mask to one that it held |
| `IPv4Ranges.PairChunks` | reference/nmap/TargetGroup.cc:461-468 | The inner loops join every octet with its partner at one bit |
| `IPv4Ranges.NetmaskOctet` | reference/nmap/TargetGroup.cc:474-500 | Each octet of a shifted netmask keeps the bits above its share of the host part |
| `IPv4Ranges.BlockClosed` | reference/nmap/TargetGroup.cc:472-500 | Closing the four octets closes the block: it holds the addresses that share the network part with one that it held |
| `IPv4Ranges.NetBlockIPv4Ranges.ApplyNetmask` | reference/nmap/TargetGroup.cc:483-500 | For 0 to 32 bits (negative is 32) the block becomes all addresses that share the first bits with one of its own; more bits change nothing |
| `IPv4Ranges.NetBlockIPv4Ranges.Settle` | reference/nmap/TargetGroup.cc:401-407 | Moves the counters to set bits without losing an address, or finds that none remains |
| `IPv4Ranges.OdometerBump` | reference/nmap/TargetGroup.cc:420-432 | Wrapping some last counters and advancing the one before moves to the next address of the product |
| `IPv4Ranges.Advance` | reference/nmap/TargetGroup.cc:424-429 | The do-while loop finds the next set bit, with a carry if it wrapped |
| `IPv4Ranges.NetBlockIPv4Ranges.Bump` | reference/nmap/TargetGroup.cc:420-443 | Takes exactly the current address off those that remain |
| `IPv4Ranges.NetBlockIPv4Ranges.Next` | reference/nmap/TargetGroup.cc:392-445 | Emits the least remaining address and removes only it; fails exactly when none remains, and from then on |
| `IPv4Ranges.NetBlockIPv4Ranges.Enumerate` | reference/nmap/TargetGroup.cc:392-445 | Repeated calls emit every address of the block exactly once in increasing order, then fail |
| `IPv4Ranges.LessIsValue` | reference/nmap/TargetGroup.cc:418 | The order of emission is the order of the packed 32-bit numbers |
| `IPv4Ranges.NetBlockIPv4Ranges.constructor` | reference/nmap/TargetGroup.cc:383-390 | A new block is empty, with counters at 0 |
| `RangeText.BitvectorToRangeString` | reference/nmap/TargetGroup.cc:502-529 | Prints exactly the runs of set octets, each as long as possible, in order, separated by commas |
| `RangeText.RunForms` | reference/nmap/TargetGroup.cc:516-521 | A run of one octet is its number, one of two octets two numbers, a longer one a range |
| `RangeText.NoLeadingZero` | reference/nmap/TargetGroup.cc:516-521 | No number is printed with a leading zero |
| `RangeText.BlockString` | reference/nmap/TargetGroup.cc:531-543 | The text of a block |
| `RangeText.ParseRun` | reference/nmap/TargetGroup.cc:218-282 | Each of the three printed forms of a run is read back as that run |
| `RangeText.ParsePrinted` | reference/nmap/TargetGroup.cc:218-282 | Parsing the text of a block without empty octet sets succeeds and rebuilds the block |
| `RangeText.AcceptedNotEmpty` | reference/nmap/TargetGroup.cc:215-282 | Whatever is accepted has no empty octet set |
| `RangeText.NormalForm` | reference/nmap/TargetGroup.cc:215-282 | Every accepted specification denotes the block that its printed form denotes |
| `TargetText.ParsedExactly` | reference/nmap/TargetGroup.cc:215-282 | A text without NUL is accepted if and only if it is the text of four octets, each `*` or a list of ranges of which either end may be left open, and then the block holds exactly the octets that these denote |
| `TargetText.ParseIPv4Ranges` | reference/nmap/TargetGroup.cc:218-282 | The in-place parser accepts exactly the texts of specifications (`ParsedExactly`), and sets exactly the octets that they denote |
| `TargetText.ParseOneRange` | reference/nmap/TargetGroup.cc:231-262 | One range, open or not on either side, with the error cases |
| `IPv6Netmask.IncCounts` | reference/nmap/TargetGroup.cc:620-624 | The carry loop adds one modulo 2^128 |
| `IPv6Netmask.NetBlockIPv6Netmask.Increment` | reference/nmap/TargetGroup.cc:620-624 | The carry loop in place |
| `IPv6Netmask.NetBlockIPv6Netmask.MakeNetmask` | reference/nmap/TargetGroup.cc:630-648 | The netmask has its one bits in whole bytes first, then in part of a byte |
| `IPv6Netmask.NetBlockIPv6Netmask.OrMask` | reference/nmap/TargetGroup.cc:650-656 | Bytes under the mask from one address, the others from the other |
| `IPv6Netmask.MergeBit` | reference/nmap/TargetGroup.cc:650-656 | Bit by bit: from the one address where the mask has the bit, and from the other where not |
| `IPv6Netmask.NetBlockIPv6Netmask.ApplyNetmask` | reference/nmap/TargetGroup.cc:658-678 | Clears the host bits of the start and sets those of the end |
| `IPv6Netmask.BetweenEnds` | reference/nmap/TargetGroup.cc:658-678 | The addresses from start to end are exactly those that share the network part |
| `IPv6Netmask.BlockSize` | reference/nmap/TargetGroup.cc:658-678 | A block with h host bits has 2^h addresses |
| `IPv6Netmask.NetBlockIPv6Netmask.Next` | reference/nmap/TargetGroup.cc:589-627 | Emits the current address, moves to the one after it, and stops after the end |
| `IPv6Netmask.Enumerate` | reference/nmap/TargetGroup.cc:589-678 | For every address and up to 128 bits: exactly the 2^(128-bits) addresses that share the prefix, each one more than the last |
| `IdleScan.AdjustedInRange` | reference/nmap/idle_scan.cc:901-952 | Adjusting keeps every timing in its range if and only if the least group size is at most the cap at the longest delay left after a right count |
| `IdleScan.DefaultLimits` | reference/nmap/idle_scan.cc:515-517 | With the delays of the program that is a least group size of at most 5 |
| `IdleScan.CountedInRange` | reference/nmap/idle_scan.cc:1105-1121 | The adjustments after counting keep the timing in its range |
| `IdleScan.StaysUsable` | reference/nmap/idle_scan.cc:901-952 | Whatever the least group size, groups never become empty and the delay never exceeds its maximum |
| `IdleScan.Scanner.AdjustTiming` | reference/nmap/idle_scan.cc:901-952 | Adjusts group size and delay as `Adjusted`, keeping them usable, and logs the answer |
| `IdleScan.AdjustedMoves` | reference/nmap/idle_scan.cc:915-948 | Which way the timing moves: open ports missed by the group lengthen the delay and shrink groups, ports counted too often shrink groups only, a right count shortens the delay, to 0 below 500, and grows groups; each within its bounds |
| `IdleScan.CountedMoves` | reference/nmap/idle_scan.cc:1105-1121 | Lost probes lengthen the delay, none lost shorten it, and groups are cropped to what the delay allows |
| `IdleScan.Scanner.CountOpen` | reference/nmap/idle_scan.cc:1145-1181 | Returns a count between 0 and the group size that the counter really showed, within six tries, or ends the program after six senseless counts |
| `IdleScan.Scanner.ScanHalf` | reference/nmap/idle_scan.cc:1205-1228 | First look at a half: a count of it, or a deeper scan of it if it seems to hold open ports and has more than one, logged as such |
| `IdleScan.Scanner.RetryHalf` | reference/nmap/idle_scan.cc:1253-1303 | Second look at a half that was only counted: it is counted again, and re-descended into where the new count asks for it |
| `IdleScan.Scanner.RetryBoth` | reference/nmap/idle_scan.cc:1253-1303 | The second look at both halves keeps the evidence and the marks of each |
| `IdleScan.Scanner.TreeScan` | reference/nmap/idle_scan.cc:1186-1313 | For every oracle: ends, marks only its own ports, exactly as many as it returns, each with a count of 1 for that port alone, and passes over a port only if a group holding it was counted empty; both halves are looked at, and a half whose answer was only a count is looked at again if the halves do not add up to what was expected |
| `IdleScan.Scanner.ScanGroups` | reference/nmap/idle_scan.cc:1374-1380 | The chunk loop scans every port exactly once, in chunks of the group size of the time, whatever happens to that size |
| `IdleScan.Scanner.IdleScan` | reference/nmap/idle_scan.cc:1369-1395 | Afterwards the ports found are open and the others without a state are closed or filtered; the program ends only after a senseless count; if the oracle counts exactly, the scan completes and exactly the ports that are open in truth have the state open; if it never counts 0 for a group with an open port no open port is missed, and if it never counts 1 for a closed port alone no closed port is reported |
| `IdleScan.ExactIsRight` | reference/nmap/idle_scan.cc:1186-1313 | If the oracle counts exactly, the ports marked are exactly the open ones |
| `IdleScan.NoneMissed` | reference/nmap/idle_scan.cc:1186-1313 | If the oracle never counts 0 for a group with an open port, no open port is missed |
| `IdleScan.NonePhantom` | reference/nmap/idle_scan.cc:1186-1313 | If the oracle never counts 1 for a closed port alone, no closed port is reported |
| `IdleScan.ExplainedBoth` | reference/nmap/idle_scan.cc:1186-1313 | The answers of two halves make an answer of the whole, and their numbers add up |
| `IdleScan.StatesAfter` | reference/nmap/idle_scan.cc:1384-1395 | After the last loop exactly the ports found are open |
| `IdleScan.ExactScan` | reference/nmap/idle_scan.cc:1369-1395 | With an exact oracle the states after the scan are right for every port |
| `IdleScan.ExactMakesSense` | reference/nmap/idle_scan.cc:1145-1181 | An exact oracle never shows a senseless count |
| `DnsName.ParseDomainName` | reference/nmap/nmap_dns.cc:1884-1949 | Ends on every buffer, by name length and then offset, and agrees with the walk of the name, which reads the byte at `maxlen` where the buffer has one |
| `DnsName.BytesAfter` | reference/nmap/nmap_dns.cc:1884-1949 | No byte after the one at `maxlen` matters to reading a name, and no byte after the buffer matters to a name that is found |
| `DnsName.NameIsRead` | reference/nmap/nmap_dns.cc:1884-1949 | A name is read if and only if it denotes labels of at most 254 bytes with their dots, and reads as these labels |
| `DnsName.ExtentConsumed` | reference/nmap/nmap_dns.cc:1914-1948 | If its pointer is to a prior occurrence, the bytes consumed are those up to the zero byte or the first pointer |
| `DnsName.CompressedName` | reference/nmap/nmap_dns.cc:1884-1949 | Labels and a pointer to a name wholly before them read as the labels followed by that name, and take the bytes of the labels and two more |
| `DnsName.PlainNameReads` | reference/nmap/nmap_dns.cc:1884-1949 | Labels and a zero byte read back whole |
| `DnsName.NameBytesAreLabels` | reference/nmap/nmap_dns.cc:1805-1832 | A dotted name is written as its labels, each after its length |
| `DnsName.PutDomainName` | reference/nmap/nmap_dns.cc:1805-1832 | Writes the name and nothing else, if it fits |
| `DnsPacket.PutUnsignedShort` | reference/nmap/nmap_dns.cc:1792-1803 | Writes two bytes, high byte first, if they fit |
| `DnsPacket.BuildSimpleRequest` | reference/nmap/nmap_dns.cc:1768-1782 | Writes header, name, type and class one after the other; returns 0 exactly if they do not fit |
| `DnsPacket.RequestReadsBack` | reference/nmap/nmap_dns.cc:2044-2075 | For every valid name a request reads back as its id, flags, one query with that name, type and class, and no answers, to its last byte |
| `DnsPacket.RequestLayout` | reference/nmap/nmap_dns.cc:1768-1782 | The bytes of a request: id, flags with recursion desired, the counts 1, 0, 0 and 0, the name, type and class, high bytes first |
| `DnsPacket.PacketExactly` | reference/nmap/nmap_dns.cc:2044-2075 | A message is read if and only if it is longer than its header and its queries and then its answers, as many as QDCOUNT and ANCOUNT say, can be read one after the other without a gap; what is read are its id, flags, and exactly these in order |
| `DnsPacket.MessageReadsBack` | reference/nmap/nmap_dns.cc:2044-2075 | For all ids, flags, questions, answers whose bytes read back, and any NSCOUNT and ARCOUNT: the message made of them reads as exactly these, to the end of the last answer |
| `DnsPacket.RootQuestion` | reference/nmap/nmap_dns.cc:1975-1988 | A question about the root, the shortest one, is read unless it ends the message |
| `DnsPacket.ParseQuery` | reference/nmap/nmap_dns.cc:1975-1988 | Reads one query |
| `DnsPacket.ParsePacket` | reference/nmap/nmap_dns.cc:2044-2075 | Reads header, queries and answers one after the other, failing as soon as one fails |
| `DnsPtr.IpToPtr` | reference/nmap/nmap_dns.cc:1636-1672 | The reverse name of an address |
| `DnsPtr.PtrToIp` | reference/nmap/nmap_dns.cc:1674-1766 | Reads an address back from the end of a reverse name, in any letter case of the domain, and says `Outside` on exactly the names of `OutsideExactly` |
| `DnsPtr.IgnoresCase` | reference/nmap/nmap_dns.cc:1674-1766 | The letter case of a name, of its digits as well as of its domain, does not matter, but for the letters W to Z |
| `DnsPtr.CaseMattersExactly` | reference/nmap/nmap_dns.cc:1731-1748 | These four are exactly the letters of which the case decides whether they are taken for digits |
| `DnsPtr.CaseForExample` | reference/nmap/nmap_dns.cc:1731-1748 | "WWWWW" before the IPv6 domain is read as an address, and "wwwww" is not |
| `DnsPtr.NibbleReads` | reference/nmap/nmap_dns.cc:1731-1748 | The value of every hexadecimal digit in both cases, and of the other characters that are taken for digits |
| `DnsPtr.OutsideExactly` | reference/nmap/nmap_dns.cc:1674-1714 | The C code would leave the string or its tables if and only if the name is shorter than the IPv4 domain, or it is an IPv4 name with a fourth digit in one of its last four numbers or with a fifth number, and all that stands after that digit are numbers and single dots |
| `DnsPtr.OutsideForExample` | reference/nmap/nmap_dns.cc:1694-1714 | Two such names: "1024" and "1.2.3.4.5" before the IPv4 domain |
| `DnsPtr.PtrRoundTrip` | reference/nmap/nmap_dns.cc:1636-1766 | Every IPv4 and IPv6 address is read back from its reverse name |
| `DnsPtr.BuildReverseRequest` | reference/nmap/nmap_dns.cc:1784-1790 | Writes a request for the reverse name, or returns 0 exactly if it does not fit |
| `DnsPtr.ReverseRequestDecodes` | reference/nmap/nmap_dns.cc:1784-1790 | A reverse request decodes to its id and its address |
| `DnsPtr.ReverseRequestLayout` | reference/nmap/nmap_dns.cc:1784-1790 | The bytes of a reverse request for one IPv4 address, written out |
| `DnsPtr.NamesInChars` | reference/nmap/nmap_dns.cc:1636-1672 | The reverse names of an IPv4 and of an IPv6 address in characters |
| `DnsPtr.PtrLabelsValid` | reference/nmap/nmap_dns.cc:1636-1672 | Reverse names are valid names within the length limit |
| `DnsScheduler.ExactlyOne` | reference/nmap/nmap_dns.cc:467-496 | Each live request is in exactly one list, and no other request is in any |
| `DnsScheduler.TimeoutKeepsOk` | reference/nmap/nmap_dns.cc:637-704 | A timeout keeps the bookkeeping of a request; it drops it if and only if its server is used up and the last to be tried, within the limit of timeouts; otherwise it waits for the same server, or for the next in the ring if its server is used up |
| `DnsScheduler.DifferentServers` | reference/nmap/nmap_dns.cc:637-704 | The servers a request was given to are all different, each the next one in the ring |
| `DnsScheduler.LastAtLimit` | reference/nmap/nmap_dns.cc:637-704 | Without server failures a request is at its end exactly at its last allowed timeout, and at the end of its server at every TriesPerServer-th one |
| `DnsScheduler.Waits` | reference/nmap/nmap_dns.cc:172-187 | How long each try waits, by the number of servers |
| `DnsScheduler.UnderLimit` | reference/nmap/nmap_dns.cc:637-704 | A live request has timed out less often than the limit |
| `DnsScheduler.LimitBound` | reference/nmap/nmap_dns.cc:172-187 | The limit is at most 6, below MAX_DNS_TRIES times SERVERS_TO_TRY |
| `DnsScheduler.Scheduler.constructor` | reference/nmap/nmap_dns.cc:1423-1441 | All requests start in the list of new requests, counted once |
| `DnsScheduler.Scheduler.TakeFirst` | reference/nmap/nmap_dns.cc:472-488 | Takes the first new request, else the oldest waiting one, from its list, and keeps the bookkeeping |
| `DnsScheduler.Scheduler.ServerSend` | reference/nmap/nmap_dns.cc:467-496 | Sends a new request, else the oldest waiting one, exactly if capacity allows and there is one; only that request moves; no send happens within another |
| `DnsScheduler.Scheduler.DoPossibleWrites` | reference/nmap/nmap_dns.cc:499-523 | Afterwards every connected server has used up its capacity or has nothing left to send; no server goes over its capacity, only connected servers send, each request stays or goes out to the server it waited for, and the loop is ended exactly if all servers are disconnected |
| `DnsScheduler.Scheduler.TimeOutOne` | reference/nmap/nmap_dns.cc:637-704 | The request at an index of the list of a server is dropped if and only if no try and no server is left to it, exactly at its limit if no server failed it; otherwise it joins the waiting list of the same or of the next server at its end; capacity and threshold shrink at most once a round |
| `DnsScheduler.Scheduler.ServerTimeouts` | reference/nmap/nmap_dns.cc:614-713 | Of the requests sent to a server exactly the expired ones time out, once each; other servers keep their lists and capacity, and the capacity grows by one step only if none expired and it was nearly used |
| `DnsScheduler.Scheduler.DealWithTimedOut` | reference/nmap/nmap_dns.cc:600-718 | Of all requests sent exactly the expired ones time out, once each, each dropped or passed on as its history says, and nothing else happens to any request |
| `DnsScheduler.Scheduler.Finish` | reference/nmap/nmap_dns.cc:734-758 | An answered request leaves all lists, records and the count, and may be deferred; capacity grows by one step in slow start |
| `DnsScheduler.Scheduler.Fail` | reference/nmap/nmap_dns.cc:760-763 | A server failure uses up the tries of a request, which then times out at once if it is out, and goes to the next server unless all were tried |
| `DnsScheduler.Scheduler.SlowDown` | reference/nmap/nmap_dns.cc:643-698 | The first timeout of a round sets the threshold to the capacity if that is smaller, and shrinks the capacity, cropped to its bounds |
| `DnsScheduler.KeptHas` | reference/nmap/nmap_dns.cc:586-596 | A live request given to a server is recorded at exactly that server |
| `DnsScheduler.LeavesServer` | reference/nmap/nmap_dns.cc:741-742 | Removing a request from both lists of its recorded server takes it out of the queues |
| `FPRounds.BestIsLargest` | reference/nmap/FPEngine.cc:2161-2189 | The set kept aside is that of the first closed round with the most answers |
| `FPRounds.FPHost.Send` | reference/nmap/FPEngine.cc:400-418 | Sending sets the time of a probe, or marks it failed; the round of an unanswered timed probe does not end before its time is over, and exactly then the probe is timed out or out of tries |
| `FPRounds.FPHost.CountTimedProbes` | reference/nmap/FPEngine.cc:2093-2144 | The counts tell exactly whether every timed probe was answered or timed out, and not all were answered; a probe is marked failed exactly if it is unanswered, out of tries and out of time, among those looked at |
| `FPRounds.FPHost.CheckTimedProbes` | reference/nmap/FPEngine.cc:2093-2211 | Closes the round exactly then, keeping the better set and sending all timed probes again |
| `FPRounds.FPHost.CloseRound` | reference/nmap/FPEngine.cc:2161-2189 | Keeps the best closed round aside and empties the current one |
| `FPRounds.FPHost.Callback` | reference/nmap/FPEngine.cc:2294-2346 | Stores a packet for the first probe that it answers and that has no answer yet, and changes nothing else |
| `FPRounds.FPHost.SetDoneAndWrapUp` | reference/nmap/FPEngine.cc:2226-2273 | What is left is one whole round, never a mix, and no round, closed or open, held more answers |

## Left out

- Captures, match-time captures, the Lua stack and key tables, and with them the instructions for captures.
- Growth of memory and the limit on the backtrack stack: the stack of the model is unbounded.
- Nested grammars and several grammars in one pattern: a pattern has at most one flat grammar, reached by `TGrammar`.
- Named rules: rules are numbered, so the fixing of open calls by name is not modelled.
- CodeGen: character sets in instructions are sets of bytes; `CharsetBytes` connects them to their 32 bytes for the
  operations on which decisions depend. `getfirst` is a function that returns a set, where the C code fills a buffer.
- Analysis.CheckAux: follows at most MAXRULES + 1 calls, where the C code follows any number; on accepted grammars that
  changes no answer (`VerifyGrammar.DepthEnough`).
- LoopRepair.LiteralIsRepaired: says when the literal code is the repaired code, not when its results are right, which is a
  question about all subjects.
- LiteralPass.LiteralPassVisits: says when the text of the last pass visits exactly the instructions; what it leaves where it
  strays from them is undefined in C as soon as it leaves the array, and is not modelled.
- LiteralPass.OffsetByte: offset words have 32 bits; offsets beyond that are not modelled.
- CodeGen.WellFormed: also admits look-behind of which the length depends on that of a rule, which `lp_behind` refuses as the
  rules are not known yet; the results hold for more trees than can be built.
- Lpeg.StackDiscipline: says nothing of a run that never ends.
- Lpeg.Compile: uses `First`, which always returns; `Lpeg.FirstSetsReturn` says that the analysis of the text does too.
- Compiler.CompileState.Peephole: revisits the jump, as the comment at lpeg.c:1846 asks; the step back of the text is
  `PeepholeAsWritten`.
- FlatTree.FinalFix: does not fix open calls, as rules are numbered, and a grammar is one slot of the layout.
- Matcher.Match: takes the length of a halting run as a ghost argument; `Lpeg.LpMatch` shows that there is one.
- The constructors of flat trees other than repetition, strings and numbers: they would add easy members only.
- IPv4Ranges.NetBlockIPv4Ranges.Next: `resolve_all`, which restarts a block with another resolved address, is not modelled.
- NetBlockIPv6Netmask::str: the number of bits that it recovers is not the prefix length.
- Host names, resolution, random targets and scope ids.
- TargetText.ParseLong: numbers are unbounded; a number too large for the C type is refused there and is out of range here.
- IdleScan.Scanner.CountOnce: one count is an input, any number with a flag for lost probes; packets, clocks and sleeping are
  not modelled, and delays are scaled exactly where the C code multiplies by a binary fraction.
- IdleScan.Scanner.IdleScan: the checks before the scan (proxy changed, target timed out, loopback) are not modelled.
- DnsName.ParseDomainName: where a name runs up to the end of the buffer the C code reads the byte after it; the model finds
  no name there. A name without labels reads as the empty name, where the C code looks before the start of the string.
- DnsPacket.ParsePacket: how one answer is read is a parameter; record payloads are not modelled.
- DnsPtr.PtrToIp: what the C code does once it has left its tables or the string is undefined; the model says `Outside`
  (`DnsPtr.OutsideExactly`).
- DnsScheduler: write failures, the rounding of scaled capacities, how the sockets of servers connect (their status is an
  input), and the flag that delays the deletion of a request until its write has completed. `reqs_on_wire` counts sends
  and is bounded by the capacity at each send; no lower bound is claimed, as late answers can decrement it twice.
- FPRounds: when probes are sent is an input of `Send`; regular probes, decoys, congestion control, and the counters of
  answered and unanswered probes; the end of the detection is an input.
- Feature vectors and the classifier, option parsing, output, FTP, terminal handling, MAC lookup and the string pool.
