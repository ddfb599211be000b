# gallocy: a verified model

gallocy is a shared-memory allocator whose processes agree through a Raft-style log. Its processes talk JSON over HTTP,
its allocator keeps an address-ordered free list and a chained hash map, its diff utility aligns two memory regions, and
it carries the sqlite shell with its CSV writer and reader. This project models those parts in Dafny and proves what they
keep, for every input and every run:

- **JSON** (`Json*.dfy`, `Utf8.dfy`). The printer as recursion over values; the scanner as the automaton of labelled
  blocks with its marker; `get_string`, the escape buffer and the recursive-descent parser as loops and objects that
  change in place. The scanner is proved against the grammar of RFC 7159, with the two departures named below, the parser
  against derivations, string values against their meaning, and printing followed by scanning and parsing gives the
  value back. The printed text itself is pinned byte by byte (`JsonLayout.dfy`).
- **Raft** (`Raft*.dfy`). Node state and handlers as objects, each handler proved to be a function on node values;
  a cluster with a network of packets in flight; results about every run on votes, voters, logs, commit indices and roles
  (`RaftVotes.dfy`, `RaftElectorate.dfy`, `RaftReplication.dfy`, `RaftCommit.dfy`, `RaftProgress.dfy`), and runs that show
  which of their conditions cannot be dropped (`RaftRuns.dfy`, `RaftRounds.dfy`); and the messages as JSON text.
- **Alignment** (`Alignment.dfy`, `Diff.dfy`). The table fill and the traceback on a two-dimensional array, against the
  definition of an alignment and its score.
- **Allocator structures** (`FreeList.dfy`, `FirstFit.dfy`, `ChainTable.dfy`, `HashMap.dfy`). Linked lists that are
  spliced in place, against sets and maps.
- **CSV** (`CsvFormat.dfy`, `Csv.dfy`). The writer and the character-by-character reader, and the round trip.

Functions say what is computed; methods with loops and fields, written as the source has them, are proved to compute it;
lemmas then say what it means.

`dafny verify dfyconfig.toml` checks everything.

## Where the code does not do what one might expect

- Election safety (section 5.2 of "In Search of an Understandable Consensus Algorithm") does not hold in general.
  `RaftVotes.OneWinnerPerTerm` names five conditions under which a term has one winner, and `RaftRuns` has, for each of
  them, a run with two winners of one term that violates only that one: two candidates grant each other, because a
  candidate casts no vote for itself (`WinnersGrantEachOther`); a voter loses an election in the term, which clears its
  vote (`LossFreesTheVote`); a voter accepts an AppendEntries of the term from the other candidate, which any client
  request makes it send (`RivalTakesTheVote`); a voter's term wraps around (`WrapFreesTheVote`); the cluster has an even
  size (`EvenSizeHasTwoWinners`).
- From a fresh start with one sender, a follower's log need not be a prefix of the sender's: the second request names the
  same previous index as the first, and an empty log takes whatever comes (`RaftRuns.OvertakenRequest`).
  `RaftReplication.FollowersKeepPrefixes` and `RaftReplication.OutOfTurnBreaks` say when prefixes are kept.
- A commit index is not capped while the log is empty, because `size() - 1` is unsigned; `RaftNode.ReplicateKeepsIndices`
  and `RaftCluster.UncappedBreaks` say exactly when that breaks the indices, and `RaftRuns.UncappedHappens` is such a run.
- A request that was appended in full is appended again when it is delivered a second time, and no other one is
  (`RaftNode.RedeliveryRepeats`); an empty log takes the first entry of a request whose previous index it does not have and
  then throws (`RaftNode.EmptyLogTakesOne`).
- A commit covers the log as it is after the wait for answers: if more entries were sent meanwhile, it covers entries that
  no other node may have (`RaftRounds.CommitOutrunsRound`); `RaftCommit.CommitCoversRound` says exactly when it does not, and
  `RaftCommit.CommitIsOnMajority` what then holds.
- `get_previous_log_index` is documented to give the last committed entry or -1. No entry is ever marked committed
  (`RaftCluster.RunKeepsUncommitted`), its scan counts upwards, and it gives the last index, or 0.
- A command is sent as a C string: one that holds a NUL byte arrives cut (`RaftWire.AppendArrivesIntact`).
- `to_unicode` encodes a lone low surrogate, which section 3 of RFC 3629 prohibits (`Utf8.ToUnicodeMeaning`); the string
  `"\udc00"` is read as three bytes that are no UTF-8 (`JsonMeaning.LoneLowIsRead`).
- `get_string` steps over one byte too many behind an escaped surrogate pair, and reads on out of step. A string that has
  a meaning is still read as it is meant if and only if every pair in it is at the end, or is followed by any number of
  escaped backslashes and then an escaped quote or slash (`JsonMeaning.ReadAsMeantIff`); `JsonMeaning.GrinIsRead` is one
  such string. Strings in which escaped backslashes behind a pair are followed by a `u` are outside this statement.
- The scanner departs from RFC 7159 in two ways, which the grammar here follows: raw bytes from 0x10 on may stand in a
  string, where section 7 wants all control characters escaped, and a NUL byte anywhere ends the input.
- The diff's mismatch constant is never used; a mismatch scores 0. The rows are given one cell more than the source
  allocates, because it writes their terminator there. On cells of the first row, the walk
  back also reads the row pointer before the table, `_matrix[-1]`, to compare with; the directions here need no such cell.
- The CSV format survives a carriage return as separator, but neither a quote nor a newline
  (`CsvFormat.SeparatorsThatWork`).

## Model

| member | source | states |
|---|---|---|
| `JsonDump.DumpRoundTrip` | gallocy/external/json.hpp:4717-4842 | for every value of null, booleans, 64-bit integers, byte strings, arrays and objects and every indent setting, scanning and parsing the dumped text gives the same value |
| `JsonDump.TokensOfDump` | gallocy/external/json.hpp:4717-4842 | dumped text scans to exactly the tokens that the grammar derives for the value, compact or indented at any depth, whatever follows it; behind an integer, the next byte must not go on with the number |
| `JsonDump.TokensOfInt` | gallocy/external/json.hpp:4717-4842 | a printed integer is one number token with that value whenever no byte that could continue it follows |
| `JsonLayout.DumpIsLaid` | gallocy/external/json.hpp:4717-4842 | the exact text: without an indent, the texts of the value's tokens with no byte between them; with one, a new line behind every opening bracket and comma and before every closing bracket, indented by the nesting depth, one space behind every colon, and nothing else; empty brackets stay together |
| `JsonLayout.SqueezedDump` | gallocy/external/json.hpp:4717-4842 | dropping the white space outside strings from any dump gives the compact one |
| `JsonLayout.LinesAreIndented` | gallocy/external/json.hpp:4735-4767 | every line at nesting depth d starts with exactly d times the indent many spaces, in an `unsigned int` |
| `JsonGrammar.ParseIsTheGrammar` | gallocy/external/json.hpp:6954-7211 | the parser succeeds with a value exactly when the tokens are a derivation followed by the end of input whose tree, later keys winning, is that value |
| `JsonGrammar.ParseYield` | gallocy/external/json.hpp:6967-7180 | the parser reads every derivation back, followed by anything, and stops right behind it |
| `JsonGrammar.ParseIsDerived` | gallocy/external/json.hpp:6967-7180 | whatever the parser accepts is a derivation, and its result is that derivation's tree |
| `JsonGrammar.DerivedValueIsUnique` | gallocy/external/json.hpp:6967-7180 | the grammar is unambiguous up to repeated keys |
| `JsonValue.PutUpdates` | gallocy/external/json.hpp:6967-7180 | assigning a key keeps the members sorted and is map update |
| `JsonValue.LessIsLexicographic` | gallocy/external/json.hpp:4740-4756 | members are kept, and printed, in the lexicographic order of the bytes of their keys |
| `JsonValue.AssignKeepsLast` | gallocy/external/json.hpp:6967-7180 | after the members of an object are assigned in order, each key has the value of its last member |
| `JsonValue.StoredIsNormal` | gallocy/external/json.hpp:6967-7180 | a value with sorted keys, each once, is its own normal form |
| `JsonValue.NormalIsStored` | gallocy/external/json.hpp:6967-7180 | every value that the parser builds has sorted keys, each once, at every depth |
| `JsonTokens.OnlyTheLastIsFinal` | gallocy/external/json.hpp:7183-7211 | every text scans to finitely many tokens, of which the last and only the last is an end of input or an error |
| `JsonTokens.WhiteSpaceIsIgnored` | gallocy/external/json.hpp:6139-6159 | spaces, tabs, newlines and carriage returns in front of a token, and no other bytes, are ignored |
| `JsonTokens.RawByteIsRead` | gallocy/external/json.hpp:6261-6297 | every raw byte from 0x10 on, other than quote and backslash, stands for itself in a string; one below is an error |
| `JsonTokens.EscapedByteIsRead` | gallocy/external/json.hpp:6796-6838 | the eight escape letters stand for their characters of section 7 of RFC 7159; any other byte but `u` behind a backslash is an error, or nothing where decoding is out of step |
| `JsonParser.Parser.constructor` | gallocy/external/json.hpp:6937-6943 | the first token is read and all tokens of the text are ahead |
| `JsonParser.Parser.GetToken` | gallocy/external/json.hpp:7183-7187 | advances by one token; it is never called behind the end of input or an error |
| `JsonParser.Parser.ParseInternal` | gallocy/external/json.hpp:6967-7180 | refines the parser on token lists, terminates, and leaves the tokens behind the value ahead |
| `JsonParser.Parser.ParseObject` | gallocy/external/json.hpp:6967-7180 | the case of an opening brace, with its checks for an empty object and a leading comma |
| `JsonParser.Parser.ParseArray` | gallocy/external/json.hpp:6967-7180 | the case of an opening bracket |
| `JsonParser.Parser.ParseElemLoop` | gallocy/external/json.hpp:6967-7180 | the element loop builds the list of the parsed elements or fails where the grammar does |
| `JsonParser.Parser.ParseMemberLoop` | gallocy/external/json.hpp:6967-7180 | the member loop assigns the parsed members in order or fails where the grammar does |
| `JsonParser.Parser.GetNumber` | gallocy/external/json.hpp:6902-6912 | the value of the number token, an integer however it is written or else its text, or nothing if `strtold` does not stop at its end |
| `JsonParser.ParseText` | gallocy/external/json.hpp:6954-6963 | parsing a text is parsing its tokens |
| `JsonNumber.StrtoldReadsTheToken` | gallocy/external/json.hpp:6902-6912 | `strtold` reads at least the token, and stops at its end exactly when no digit or hexadecimal form follows a zero and no bare decimal point follows the integer part |
| `JsonNumber.IntTextValue` | gallocy/external/json.hpp:7140-7170 | the decimal text of every integer has that integer as its value, and 64-bit integers come back as integers |
| `JsonNumber.IntTextIsOneToken` | gallocy/external/json.hpp:6526-6674 | the scanner and `strtold` agree that a printed integer is one whole number |
| `JsonNumber.WholeFractionValue` | gallocy/external/json.hpp:7140-7170 | an integer written with a fraction of zero is that integer |
| `JsonNumber.ExponentScales` | gallocy/external/json.hpp:7140-7170 | an integer written with an exponent is that power of ten times it |
| `JsonNumber.NumberShape` | gallocy/external/json.hpp:6217-6260 | a number token starts with a digit behind an optional minus, does not go on with a digit behind a first zero, and ends with a digit |
| `JsonNumber.DecimalMeaning` | gallocy/external/json.hpp:7140-7170 | a number of the grammar has the integer n as its value if and only if n is its signed digits times ten to the power of its exponent less the digits behind the point |
| `JsonNumber.IntegersAreKept` | gallocy/external/json.hpp:7152-7159 | exactly the integers from -2^63 to 2^63 - 1 come back as integers |
| `JsonLex.NumberLenIsLongest` | gallocy/external/json.hpp:6217-6260 | a number token is found exactly when some prefix is a number of section 6 of RFC 7159, and it is the longest such prefix |
| `JsonScanner.NumberBlocksKeep` | gallocy/external/json.hpp:6526-6674 | every block of the number automaton keeps the end of the number that it is heading for, backing up to the marker over an unfinished fraction or exponent |
| `JsonScanner.RunNumber` | gallocy/external/json.hpp:6526-6674 | the jumps end at the end of the longest number |
| `JsonScanner.ScanNumber` | gallocy/external/json.hpp:6217-6260 | a number token with its longest length, or an error that consumes one byte |
| `JsonLex.StringLenIsToken` | gallocy/external/json.hpp:6261-6525 | a string token of a length is found exactly when that prefix is a quote, a legal body (raw bytes from 0x10 on, escapes) and a quote |
| `JsonScanner.StringBlocksKeep` | gallocy/external/json.hpp:6261-6525 | every block of the string automaton keeps the closing quote that it is heading for |
| `JsonScanner.RunString` | gallocy/external/json.hpp:6261-6525 | the jumps find the closing quote if and only if the characters run up to one |
| `JsonScanner.ScanString` | gallocy/external/json.hpp:6261-6525 | a string token with its length, or an error that consumes one byte |
| `JsonScanner.RunWord` | gallocy/external/json.hpp:6675-6724 | the chain of blocks of a literal succeeds exactly when the literal stands there |
| `JsonScanner.ScanToken` | gallocy/external/json.hpp:5966-6728 | the automaton computes the token that the grammar gives |
| `JsonScanner.Lexer.Scan` | gallocy/external/json.hpp:5966-6728 | skips exactly the white space and then reads one token, moving the start and the cursor |
| `JsonScanner.Lexer.GetString` | gallocy/external/json.hpp:6782-6883 | the value of the current string token |
| `JsonScanner.DecodeBody` | gallocy/external/json.hpp:6782-6883 | the loop between the quotes, with its step of eleven behind a surrogate pair and the reading out of step that follows, computes the value of the body, throws for a high surrogate without its partner, or stops where escaped backslashes behind a pair meet a `u` |
| `JsonString.UnescapeUndoesEscape` | gallocy/external/json.hpp:6782-6883 | for every byte string, the escaped text is a legal body and decoding it gives the string back |
| `JsonString.EscapedIsOneToken` | gallocy/external/json.hpp:6261-6525 | the quoted escaped text is one string token that ends at its own closing quote, whatever follows |
| `JsonScanner.DecodeUnicode` | gallocy/external/json.hpp:6841-6871 | one round at a unicode escape: its bytes, the pair's bytes and the position the source goes on from, or the exception |
| `JsonMeaning.MeaningIsRead` | gallocy/external/json.hpp:6782-6883 | a body whose surrogates are all paired, and whose pairs are at the end or before escaped backslashes and then an escaped quote or slash, is read as sections 7 and 8.2 of RFC 7159 mean it |
| `JsonMeaning.ReadAsMeantIff` | gallocy/external/json.hpp:6782-6883 | for any number of pairs, that condition is also necessary: a body that has a meaning and is read to its end is read as it is meant if and only if every pair ends well |
| `JsonMeaning.BadPairShows` | gallocy/external/json.hpp:6841-6871 | otherwise what is read and what is meant differ in a byte at the same distance from their ends, whatever stands before |
| `JsonMeaning.MeantIsNotRefused` | gallocy/external/json.hpp:6847-6854 | a body that has a meaning is never refused |
| `JsonMeaning.GrinIsRead` | gallocy/external/json.hpp:6856-6861 | an emoji as a pair, an escaped backslash and an escaped quote are read as they are meant although a byte is lost |
| `JsonMeaning.LoneLowIsRead` | gallocy/external/json.hpp:6863-6869 | an escaped low surrogate alone is a legal string, has no meaning, and is read as bytes that are no UTF-8 |
| `JsonMeaning.EscapeTextIsRead` | gallocy/external/json.hpp:6844-6869 | every code that is no surrogate, written as four base-16 digits in either letter case, is read as its encoding |
| `JsonMeaning.PairTextIsRead` | gallocy/external/json.hpp:6847-6861 | so is every code point above 0xFFFF, written as a pair of escapes |
| `JsonMeaning.LastBehindPair` | gallocy/external/json.hpp:6856-6861 | a plain byte at the end behind a pair is lost, and an escaped backslash there is read as a quote |
| `JsonEscape.ExtraSpace` | gallocy/external/json.hpp:4556-4590 | exactly the difference between the lengths of the escaped and the plain string |
| `JsonEscape.EscapeString` | gallocy/external/json.hpp:4605-4698 | filling the buffer of backslashes in place produces the escaped string, with nothing left over |
| `JsonEscape.EscapeAppends` | gallocy/external/json.hpp:4605-4698 | escaping works byte by byte |
| `JsonEscape.EscapeLength` | gallocy/external/json.hpp:4556-4590 | escaping never shrinks a string and leaves it alone exactly when no extra space is needed |
| `JsonEscape.EscapeHasNoControl` | gallocy/external/json.hpp:4677-4691 | whatever the string holds, no byte below 0x20 is printed |
| `JsonEscape.ControlForm` | gallocy/external/json.hpp:4677-4691 | a control character without a short form becomes `\u00` and two lower-case base-16 digits |
| `JsonString.EscapeIsShortest` | gallocy/external/json.hpp:4605-4698 | among all legal bodies without control characters that are read as a byte, none is shorter than the one that is printed for it |
| `Utf8.EncodeDecodes` | gallocy/external/json.hpp:5856-5918 | for every code point up to 0x10FFFF the bytes decode to it under section 3 of RFC 3629, whatever follows, unless it is a surrogate, and then they do not decode |
| `Utf8.DecodeEncodes` | gallocy/external/json.hpp:5856-5918 | conversely, whatever decodes is the encoding of what it decodes to, and no surrogate |
| `Utf8.PrefixFree` | gallocy/external/json.hpp:5856-5918 | no encoding is a proper prefix of another |
| `Utf8.CombineIsOnto` | gallocy/external/json.hpp:5856-5918 | each code point from 0x10000 to 0x10FFFF comes from exactly one surrogate pair |
| `Utf8.CombineIsInto` | gallocy/external/json.hpp:5856-5918 | each surrogate pair gives such a code point |
| `Utf8.ToUnicodeMeaning` | gallocy/external/json.hpp:5856-5918 | which calls succeed and which throw; the bytes decode to the code point that is meant if and only if the first argument is no low surrogate |
| `Utf8.ShiftsAndMasks` | gallocy/external/json.hpp:5856-5918 | the shifts and masks of the source are the divisions and remainders of the model |
| `RaftNode.AppendAllAppends` | gallocy/consensus/state.cpp:271-285 | on a non-empty log the loop appends all entries or, exactly when the previous index is past the end, throws with the log unchanged |
| `RaftNode.EmptyLogTakesOne` | gallocy/consensus/state.cpp:271-285 | an empty log passes the guard once and throws at the second entry |
| `RaftNode.RedeliveryRepeats` | gallocy/consensus/state.cpp:256-305 | a second delivery leaves the log alone if and only if the first one did not append in full; otherwise the entries are there twice |
| `RaftNode.ReplicateKeepsIndices` | gallocy/consensus/state.cpp:256-305 | no index goes back, and the indices stay valid if and only if no commit index is taken over by an empty log |
| `RaftNode.ReplicateCommits` | gallocy/consensus/state.cpp:287-290 | an accepted request raises the commit index to the leader's as far as the log reaches, and never beyond either |
| `RaftNode.ReplicateFollows` | gallocy/consensus/state.cpp:292-295 | an accepted request makes the node a follower of the sender in its term; any other changes none of that |
| `RaftNode.FreeNodeGrants` | gallocy/consensus/state.cpp:230-252 | a node without a vote grants every request of no lower term that is not behind it; no request of a lower term, or behind it, or against its vote, is granted |
| `RaftNode.HigherTermFreesVote` | gallocy/consensus/state.cpp:30-38 | a reply of a higher term makes the node a follower of it that grants any candidate of that term who is not behind |
| `RaftNode.LastAsIntIsInt32` | gallocy/consensus/log.cpp:4-19 | the scans start from the 32-bit two's complement of the last index |
| `RaftState.GallocyLog.AppendEntry` | gallocy/consensus/log.cpp:22-25 | the entry is the last one and the result its index |
| `RaftState.GallocyLog.GetPreviousLogIndex` | gallocy/consensus/log.cpp:4-10 | the first uncommitted index at or above the last one, which exists because it stops; 0 for an empty log |
| `RaftState.GallocyLog.GetPreviousLogTerm` | gallocy/consensus/log.cpp:13-19 | the term of that entry; 0 for an empty log |
| `RaftState.GallocyState.SetCurrentTerm` | gallocy/consensus/state.cpp:30-38 | the new term, with the vote forgotten and nothing else changed |
| `RaftState.GallocyState.SetVotedFor` | gallocy/consensus/state.cpp:47-50 | the vote and nothing else changes |
| `RaftState.GallocyState.SetState` | gallocy/consensus/state.cpp:148-176 | the role and nothing else of the modelled state changes |
| `RaftState.GallocyState.IncrementCurrentTerm` | gallocy/consensus/state.cpp:192-196 | the next term modulo 2^64, with the old vote kept |
| `RaftState.GallocyState.TryGrantVote` | gallocy/consensus/state.cpp:220-253 | grants under exactly the four conditions, and changes the node only when it grants |
| `RaftState.GallocyState.AppendEntries` | gallocy/consensus/state.cpp:271-285 | the loop computes the appended log and whether the guard threw |
| `RaftState.GallocyState.TryReplicateLog` | gallocy/consensus/state.cpp:256-305 | the whole new state of the node and the verdict, including the one that throws halfway |
| `RaftState.GallocyState.TryApply` | gallocy/consensus/state.cpp:308-316 | applies one entry exactly when the commit index is ahead |
| `RaftState.GallocyState.RequestVoteCallback` | gallocy/consensus/client.cpp:45-59 | a higher term makes the node a follower of that term; the vote counts if granted |
| `RaftState.GallocyState.AppendEntriesCallback` | gallocy/consensus/client.cpp:84-112 | the same, and the answer counts exactly if it succeeded without a higher term |
| `RaftState.GallocyState.PrepareAppend` | gallocy/consensus/client.cpp:121-142 | the request is built from the log as it was before the entries are added to it |
| `RaftState.GallocyState.FinishAppend` | gallocy/consensus/client.cpp:158-166 | commits the last index if it is positive and applies one entry |
| `RaftState.GallocyState.AbandonElection` | gallocy/consensus/machine.cpp:67-77 | a lost election clears the vote |
| `RaftCluster.RunExtendsLog` | gallocy/consensus/state.cpp:256-305 | on every run, every log is only ever extended |
| `RaftCluster.RunRaisesTerm` | gallocy/consensus/state.cpp:30-38 | on every run, no term decreases unless the 64-bit increment wraps around |
| `RaftCluster.StepMovesForward` | gallocy/consensus/state.cpp:192-196 | a step lowers a term if and only if it is such an increment |
| `RaftCluster.RunKeepsIndices` | gallocy/consensus/state.cpp:262-316 | as long as no positive commit meets an empty log, `last_applied <= commit_index`, the commit index is 0 or a log index, and neither goes back |
| `RaftCluster.UncappedBreaks` | gallocy/consensus/state.cpp:288-290 | the first step that violates this condition does break them |
| `RaftRuns.UncappedHappens` | gallocy/consensus/state.cpp:288-290 | a run from a fresh start on which the heartbeat of an elected leader overtakes the entries it commits and breaks the indices |
| `RaftCluster.RunKeepsUncommitted` | gallocy/consensus/log.cpp:4-19 | on every run no entry, in a log or in flight, is marked committed |
| `RaftVotes.GrantsAgree` | gallocy/consensus/state.cpp:220-253 | on every run, two grants of a node in one term agree, or between them the node accepts an AppendEntries of that term from another node than the first candidate, loses an election in that term, or wraps its term |
| `RaftVotes.RunKeepsElectionReal` | gallocy/consensus/client.cpp:15-42 | on every run, the response count of an election is the number of distinct peers that really granted that candidate in that term |
| `RaftVotes.OneWinnerPerTerm` | gallocy/consensus/client.cpp:15-42 | in a cluster of odd size a term has at most one winner, if neither winner grants the other in it and no voter of theirs afterwards accepts a rival's AppendEntries of the term, loses an election in it or wraps its term; accepting the winner's own requests and anything of other terms is allowed |
| `RaftElectorate.WinnersVotersWereNotAhead` | gallocy/consensus/state.cpp:230-252 | on every run each counted voter of a winner had, when it granted, a commit index and a last applied index no greater than the winner's when it started that election |
| `RaftElectorate.RequestIsHonest` | gallocy/consensus/client.cpp:62-71 | every vote request in flight carries the indices that its sender had when it started the election |
| `RaftElectorate.FreeVoterGrants` | gallocy/consensus/state.cpp:230-252 | a node without a vote, in no higher term and not ahead of a request, can only answer it with a grant |
| `RaftProgress.RoleIsLastDecided` | gallocy/consensus/machine.cpp:17-77 | on every run a node's role is the one that the last deciding event gave it: an election started, won or lost, a request accepted, or a higher term in a reply |
| `RaftProgress.LeaderHasWon` | gallocy/consensus/machine.cpp:67-71 | after a fresh start, a leader has won an election and has since started none, lost none, accepted no request and heard of no higher term |
| `RaftProgress.VoteIsLastDecided` | gallocy/consensus/state.cpp:30-38 | on every run a node's vote is the one that the last deciding event left: a vote granted, a request accepted, or a vote cleared by a lost election or a higher term in a reply; starting an election leaves it alone |
| `RaftProgress.VoteWasDecided` | gallocy/consensus/state.cpp:230-252 | a node that backs a candidate has granted it a vote or accepted a request of its, and nothing has taken that back since |
| `RaftProgress.TermsAreOpened` | gallocy/consensus/client.cpp:62-71 | on every run from a fresh start, every term that a node is in or that a packet carries, except the first, was opened by a node that started an election for it |
| `RaftProgress.AppliedInOrder` | gallocy/consensus/state.cpp:308-316 | on every run entries are applied one by one, in order and without gaps, and none before it is committed |
| `RaftRuns.WinnersGrantEachOther` | gallocy/consensus/client.cpp:62-81 | two winners of one term after a fresh start, with all those conditions met but that the winners grant each other |
| `RaftRuns.LossFreesTheVote` | gallocy/consensus/machine.cpp:67-77 | the same with a voter that loses an election in the term |
| `RaftRuns.RivalTakesTheVote` | gallocy/consensus/state.cpp:292-295 | the same with a voter that accepts a rival's AppendEntries of the term |
| `RaftRuns.WrapFreesTheVote` | gallocy/consensus/state.cpp:192-196 | the same with a voter that wraps its term, after a fresh start and as many lost elections as lead to the last term |
| `RaftRuns.EvenSizeHasTwoWinners` | gallocy/consensus/client.cpp:15-42 | the same in a cluster of two, where `peer_count / 2` is 0 |
| `RaftRuns.Climb` | gallocy/consensus/machine.cpp:67-77 | three nodes get from a fresh start to every 64-bit term by elections that nobody answers |
| `RaftReplication.FollowersKeepPrefixes` | gallocy/consensus/state.cpp:256-305 | with one sender, and each message delivered at most once, in any order or never, every node keeps a prefix of the sender's log as long as no empty log takes entries that were sent when the sender's log was not empty |
| `RaftReplication.FreshFollowersKeepPrefixes` | gallocy/consensus/state.cpp:256-305 | in particular on every such run from a fresh start |
| `RaftReplication.OutOfTurnBreaks` | gallocy/consensus/state.cpp:271-285 | the first step out of turn leaves prefixes if and only if what it takes is what the sender's log starts with; it breaks them if the first entry differs |
| `RaftReplication.NonEmptyFollowersKeepPrefixes` | gallocy/consensus/state.cpp:256-305 | if every log is non-empty at the start, prefixes are kept on every run |
| `RaftRuns.OvertakenRequest` | gallocy/consensus/state.cpp:271-285 | a run from a fresh start with one sender on which a follower takes the second entry only |
| `RaftReplication.CommittedEntriesAgree` | gallocy/consensus/client.cpp:121-168 | on runs in turn, any two nodes with capped commit indices agree on every entry at or below both of them |
| `RaftReplication.NonEmptyCommittedAgree` | gallocy/consensus/client.cpp:121-168 | on every run that starts with non-empty logs, without these conditions |
| `RaftReplication.NobodyCommitsBeyondSender` | gallocy/consensus/state.cpp:287-290 | on every run from a fresh start with one sender, who alone commits, no node's commit index exceeds the sender's |
| `RaftReplication.AcceptingCatchesUp` | gallocy/consensus/state.cpp:287-290 | a node that accepts a request has then committed as much of its log as the sender had when it sent it |
| `RaftCommit.AppendIsHonest` | gallocy/consensus/client.cpp:121-139 | on every run, every AppendEntries in flight carries its sender's term and commit index, and the index and term of the last entry of its log, as they were when it was sent |
| `RaftCommit.ReplyIsHonest` | gallocy/consensus/server.cpp:85-92 | every reply carries its sender's verdict on that very request and its term behind it |
| `RaftCommit.CountedAppended` | gallocy/consensus/client.cpp:84-111 | on every run a peer whose answer is counted has appended all entries of that send at once; heartbeats are never counted |
| `RaftCommit.CountedOnce` | gallocy/consensus/client.cpp:15-43 | no peer is counted twice for one send, so the response count is the number of supporters |
| `RaftCommit.SupportersHaveLog` | gallocy/consensus/state.cpp:263-285 | with one sender and in turn, all supporters of a send have, ever after, the whole log that the sender had behind it |
| `RaftCommit.CommitCoversRound` | gallocy/consensus/client.cpp:152-165 | the commit that ends a round covers no more than what its supporters have if and only if no entries were sent meanwhile |
| `RaftCommit.CommitIsOnMajority` | gallocy/consensus/client.cpp:152-165 | in a cluster of odd size, with one sender and in turn: after a round in which nothing else was sent, everything up to the new commit index is, then and ever after, in the logs of more than half of the nodes |
| `RaftRounds.CommitOutrunsRound` | gallocy/consensus/client.cpp:152-165 | a run from a fresh start, with one sender and in turn, on which a round ends with a commit that covers an entry which no other node has |
| `RaftReplication.RunReplicates` | gallocy/consensus/client.cpp:121-168 | the invariant behind it: requests in flight carry disjoint stretches of the sender's log that their receivers do not have yet |
| `RaftWire.BodyArrives` | gallocy/http/request.cpp:69-76 | a dumped body holds no NUL, so parsing it as a C string gives the value that was sent |
| `RaftWire.AppendArrives` | gallocy/consensus/server.cpp:66-83 | the request decoded from the sender's text: commands cut at a NUL, entries uncommitted, indices modulo 2^64 |
| `RaftWire.AppendArrivesIntact` | gallocy/consensus/client.cpp:132-142 | the follower handles the very request that was sent if and only if no command holds a NUL, no entry is committed and the indices fit 64 bits |
| `RaftWire.EntryArrives` | gallocy/include/gallocy/consensus/log.h:44-51 | what becomes of one log entry |
| `RaftWire.AppendObject` | gallocy/consensus/client.cpp:132-142 | the keys of an AppendEntries request, in the order in which they are printed, and its entries one by one |
| `RaftWire.EntryObject` | gallocy/include/gallocy/consensus/log.h:44-51 | the keys of an entry |
| `RaftWire.VoteObject` | gallocy/consensus/client.cpp:67-71 | the keys of a vote request |
| `RaftWire.ReplyObject` | gallocy/consensus/server.cpp:51-54 | the keys of the replies to both requests |
| `RaftWire.EntriesThatAreNone` | gallocy/consensus/server.cpp:76-83 | a request without entries, or with null for them, is a heartbeat; a scalar in their place is refused |
| `RaftWire.VoteArrives` | gallocy/consensus/server.cpp:43-50 | the vote request decoded from the candidate's text is the one that was sent |
| `RaftWire.ReplyArrives` | gallocy/consensus/client.cpp:45-51 | the reply decoded by a callback is the one that was sent |
| `RaftExchange.EveryMessageArrives` | gallocy/consensus/client.cpp:121-152 | on every run from a fresh start with NUL-free commands and logs of at most 2^64 entries, every message under way is decoded from its text exactly as it was sent |
| `Alignment.LastCellIsOptimal` | gallocy/utils/diff.cpp:90-158 | the last cell is the maximum score over all alignments of the inputs, and the traced alignment attains it |
| `Alignment.BestIsUpperBound` | gallocy/utils/diff.cpp:104-123 | no alignment of two prefixes scores higher than their cell |
| `Alignment.PathAligns` | gallocy/utils/diff.cpp:125-158 | the traced columns are an alignment of the two prefixes |
| `Alignment.PathAttainsBest` | gallocy/utils/diff.cpp:125-158 | their score is the value of the cell |
| `Alignment.PathPrefersPairs` | gallocy/utils/diff.cpp:115-120 | at every cell the traced alignment ends with a pair if any optimal one does, else with a gap in the upper row if any optimal one does, and only else with one in the lower row |
| `Alignment.PathIsTheOne` | gallocy/utils/diff.cpp:115-120 | only one alignment prefers its columns in this order at each of its ends, and it is the traced one |
| `Alignment.RowsAt` | gallocy/utils/diff.cpp:146-155 | what each of the two rows shows at each column |
| `Alignment.BestIsSymmetric` | gallocy/utils/diff.cpp:90-123 | the best score does not depend on the order of the inputs |
| `Alignment.BestIsBounded` | gallocy/utils/diff.cpp:90-123 | it lies between minus the difference of the lengths and the shorter length minus that difference |
| `Alignment.BestOfItself` | gallocy/utils/diff.cpp:90-123 | a string aligned with itself scores its length |
| `Alignment.SelfAlignment` | gallocy/utils/diff.cpp:125-158 | and both rows are the string without gaps |
| `Alignment.RowsRestoreInputs` | gallocy/utils/diff.cpp:134-158 | deleting the gap characters from a row gives the input back if and only if the input holds none |
| `Alignment.DoubleGapIsInput` | gallocy/utils/diff.cpp:134-158 | a column shows two gaps if and only if its own bytes are gap characters of the inputs |
| `Alignment.NoDoubleGap` | gallocy/utils/diff.cpp:134-158 | so no column does if neither input holds the gap character |
| `Alignment.EditIsAlignment` | gallocy/utils/diff.cpp:134-158 | running columns as an edit script turns one string into another exactly when they align them |
| `Alignment.AlignmentLength` | gallocy/utils/diff.cpp:125-132 | an alignment is at least as long as each input and at most as long as both |
| `Diff.Table.FillBorders` | gallocy/utils/diff.cpp:90-102 | first row and column hold the best scores against nothing |
| `Diff.Table.FillCell` | gallocy/utils/diff.cpp:107-121 | one cell gets its best score and its direction, and no other cell changes |
| `Diff.Table.FillRow` | gallocy/utils/diff.cpp:104-123 | the loop over a row fills that row and keeps the ones above |
| `Diff.Table.Fill` | gallocy/utils/diff.cpp:90-123 | every cell holds the best score of its prefixes and the direction it came from |
| `Diff.Table.TraceLength` | gallocy/utils/diff.cpp:127-132 | the length of the traced alignment |
| `Diff.Table.WriteRows` | gallocy/utils/diff.cpp:134-158 | the rows written backwards are the rows of the traced alignment, ended by a NUL |
| `Diff.Compute` | gallocy/utils/diff.cpp:73-167 | the two rows that `diff` returns |
| `Diff.RowsMeaning` | gallocy/utils/diff.cpp:125-158 | these are rows of an optimal alignment, of equal length between the longer input and both together, an edit script between the inputs, restoring them when they hold no gap character, and then with no double gap |
| `FreeList.MallocIsFirstFit` | gallocy/include/gallocy/heaplayers/firstfitheap.h:20-45 | the result is a block that was not live, is large enough and is the lowest-addressed free one that fits; only if none fits is the superclass heap asked |
| `FreeList.FreeReturnsBlock` | gallocy/include/gallocy/heaplayers/firstfitheap.h:47-74 | a freed live block joins the free ones, in address order |
| `FreeList.FreeThenMalloc` | gallocy/include/gallocy/heaplayers/firstfitheap.h:20-74 | freeing a block below every other fit and asking again gives it back |
| `FreeList.HistoryKeepsValid` | gallocy/include/gallocy/heaplayers/firstfitheap.h:20-74 | after every history the list is strictly address-sorted and free and live blocks partition everything taken |
| `FreeList.TakenIsPeak` | gallocy/include/gallocy/heaplayers/firstfitheap.h:20-74 | if all requests have one size, the number of blocks ever taken is the peak number of live blocks |
| `FirstFit.Heap.Malloc` | gallocy/include/gallocy/heaplayers/firstfitheap.h:20-45 | splicing the linked list refines the set model and keeps the list acyclic with `nObjects` its length |
| `FirstFit.Heap.FindFit` | gallocy/include/gallocy/heaplayers/firstfitheap.h:26-31 | the search loop finds the first block that is large enough, and the one before it |
| `FirstFit.Heap.Unlink` | gallocy/include/gallocy/heaplayers/firstfitheap.h:35-41 | the list without that block |
| `FirstFit.Heap.Free` | gallocy/include/gallocy/heaplayers/firstfitheap.h:47-74 | linking a block in refines the set model; a null pointer changes nothing |
| `FirstFit.Heap.FindPlace` | gallocy/include/gallocy/heaplayers/firstfitheap.h:58-65 | the search loop finds the block behind which the address belongs |
| `FirstFit.Heap.Link` | gallocy/include/gallocy/heaplayers/firstfitheap.h:67-73 | the list with the block inserted there |
| `FirstFit.Heap.Reset` | gallocy/include/gallocy/heaplayers/firstfitheap.h:76-87 | every free block is given back once, in address order, and the list is empty |
| `ChainTable.SetIsUpdate` | gallocy/include/gallocy/heaplayers/myhashmap.h:21-33 | setting is map update, for every hash function and bin count, and keeps every key once in its own bin |
| `ChainTable.EraseIsRemoval` | gallocy/include/gallocy/heaplayers/myhashmap.h:48-68 | erasing removes exactly that key |
| `ChainTable.RunRepresents` | gallocy/include/gallocy/heaplayers/myhashmap.h:21-78 | after every sequence of operations the table stands for the abstract map |
| `ChainTable.LookupFindsLast` | gallocy/include/gallocy/heaplayers/myhashmap.h:35-46 | a lookup finds the value that was set last and not erased since |
| `ChainTable.KeySitsInItsBin` | gallocy/include/gallocy/heaplayers/myhashmap.h:21-33 | every pair sits once in the bin of its hash value modulo the number of bins, and in no other |
| `ChainTable.NewestFirst` | gallocy/include/gallocy/heaplayers/myhashmap.h:71-78 | a new key goes in front of its bin; a known one keeps its place, and so do all others |
| `HashMap.MyHashMap.constructor` | gallocy/include/gallocy/heaplayers/myhashmap.h:13-19 | all bins are empty |
| `HashMap.MyHashMap.Get` | gallocy/include/gallocy/heaplayers/myhashmap.h:35-46 | the value under the key, or 0 |
| `HashMap.MyHashMap.Set` | gallocy/include/gallocy/heaplayers/myhashmap.h:21-33 | the contents are updated at the key; nodes taken minus nodes freed stays the size of the map |
| `HashMap.MyHashMap.Insert` | gallocy/include/gallocy/heaplayers/myhashmap.h:71-78 | a new node at the head of the bin |
| `HashMap.MyHashMap.Erase` | gallocy/include/gallocy/heaplayers/myhashmap.h:48-68 | the key is gone, nothing else changes, and its node is freed |
| `CsvFormat.FieldRoundTrip` | gallocy/external/sqlite3/shell.c:1872-1930 | a written field, ended by a separator or a newline, is read back, with that terminator and nothing more consumed |
| `CsvFormat.RowRoundTrip` | gallocy/external/sqlite3/shell.c:857-870 | so is a written row, whatever follows |
| `CsvFormat.TableRoundTrip` | gallocy/external/sqlite3/shell.c:664-693 | writing a table and reading it back gives the same fields and row breaks and consumes the whole text |
| `CsvFormat.SeparatorsThatWork` | gallocy/external/sqlite3/shell.c:664-693 | for 7-bit separators other than NUL, every table survives if and only if the separator is neither a quote nor a newline |
| `CsvFormat.PlainFields` | gallocy/external/sqlite3/shell.c:640-657 | a field is printed without quotes exactly when it is not empty and holds only printable ASCII other than the space, both kinds of quotes and the separator |
| `CsvFormat.FieldAtEnd` | gallocy/external/sqlite3/shell.c:1872-1930 | a written field at the end of the file is read back |
| `CsvFormat.FieldBeforeCrLf` | gallocy/external/sqlite3/shell.c:1894-1902 | so is one before a carriage return and a newline, the line end of section 2 of RFC 4180 |
| `CsvFormat.UnterminatedIsRead` | gallocy/external/sqlite3/shell.c:1907-1912 | a quoted field that is never closed is all the rest of the file |
| `CsvFormat.LooseQuotesAreKept` | gallocy/external/sqlite3/shell.c:1881-1916 | quotes in a quoted field that are neither doubled nor at its end are kept |
| `Csv.OutputCsv` | gallocy/external/sqlite3/shell.c:664-693 | the scan that restarts its counter quotes exactly the empty fields and those with a byte that needs it; a null pointer prints as the null value |
| `Csv.OutputRow` | gallocy/external/sqlite3/shell.c:865-868 | the cells, null ones as the null value, with separators between them and a newline at the end |
| `Csv.ShowRow` | gallocy/external/sqlite3/shell.c:857-870 | the header line before the first row if it is wanted, nameless columns as empty text, then the row if there is one |
| `CsvFormat.CellsOfFields` | gallocy/external/sqlite3/shell.c:857-870 | without null cells that is the row text that reads back |
| `CsvFormat.CellsRoundTrip` | gallocy/external/sqlite3/shell.c:664-693 | a row with null cells reads back with the null value in their place, if that holds no separator or newline, does not start with a quote and does not end with a carriage return |
| `CsvFormat.NullsThatWork` | gallocy/external/sqlite3/shell.c:664-693 | a null value that does not start with a quote survives in every row exactly then |
| `Csv.HeaderIsRead` | gallocy/external/sqlite3/shell.c:857-870 | the header line reads back as the column names, with the empty text for a column without one |
| `Csv.CsvReader.AppendChar` | gallocy/external/sqlite3/shell.c:1848-1858 | the text grows by the byte and there is still room for a NUL |
| `Csv.CsvReader.DropToQuote` | gallocy/external/sqlite3/shell.c:1899 | the backward search cuts at the last quote and stops inside the buffer |
| `Csv.CsvReader.ReadQuotedField` | gallocy/external/sqlite3/shell.c:1881-1916 | the loop with two characters of history reads a quoted field |
| `Csv.CsvReader.ReadPlainField` | gallocy/external/sqlite3/shell.c:1917-1927 | the loop over a plain field, with the carriage return before a newline dropped |
| `Csv.CsvReader.ReadOneField` | gallocy/external/sqlite3/shell.c:1872-1930 | field, terminator and unread input are those of the format, and the line number advances by the newlines consumed |
| `Csv.CsvReader.ReadFields` | gallocy/external/sqlite3/shell.c:2484-2490 | the header loop reads one row |

## Left out

- JSON floating-point numbers: a number whose exact value is no 64-bit integer is carried as its text; rounding, also of such a number to an integer, is not modelled.
- JsonScanner.DecodeBody: stops where escaped backslashes right behind an escaped surrogate pair are followed by a `u`; there the source takes the next four bytes for digits whatever they are, also bytes behind the token.
- JsonMeaning.ReadAsMeantIff: leaves out the strings at which decoding stops in this way.
- JsonGrammar.ParseIsTheGrammar: counts a string at which decoding stops in this way as a failure.
- Parser callbacks, stream input, iterators and the rest of the JSON class's interface.
- Conversions to an unsigned field from a fractional number, when a message holds one; no sender prints one.
- RaftReplication.FollowersKeepPrefixes: asks for a sender's log of at most 2^31 entries, because `get_previous_log_index` counts with an `int`.
- Interleaving inside a handler, condition variables, the timer and the 1 ms wait: handlers are atomic and the outcome of a wait is free. A node may campaign in any role and commit at any time, so the runs here include the program's; RaftCommit looks at the commits that end a round of answers.
- `next_index` and `match_index`, which nothing reads to decide anything.
- Conflict deletion, log matching across leaders and leader completeness, which the source does not implement.
- HTTP, sockets, curl, logging and configuration. Packets are lost, delayed and reordered, but not duplicated.
- The superclass heap of the free list and the node allocator of the hash map: their answers are parameters, or fresh objects. Running out of memory is not modelled, nor is the bin index beyond an `int`.
- Inputs to the diff whose lengths exceed an `int`.
- CSV separators of several bytes, the messages on standard error, interrupts, and the import into tables. Null values that start with a quote are not read back here.
- FreelistHeap, SizeHeap, ZoneHeap, thread and locking layers, the sqlite bindings and the command-line shell: they would only add easy members, or are platform code.
