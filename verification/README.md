# Boost samples: verified models of the ICMP scanner and the WTL algorithms

This project models the parts of the repository that hold real algorithms and proves what they do:

- the **ICMP scanner** (`modules/icmp_scanner`): the header checksum, the packet it sends and the parsing of what comes
  back, and the scan and session-timeout protocol as a state machine over its critical sections and callbacks;
- the **vendored WTL headers** (`external/wtl91/include/wtl`): exact DECIMAL comparison, find and replace in Edit and
  Rich Edit controls, owner-draw conversion of menus, cyclic menu navigation, images of commands, tab pages, sort
  columns, status-bar panes, the hyperlink tag parser, and the page rectangle of print preview.

`dafny verify dfyconfig.toml` checks everything. One module corresponds to one component; `Common` holds what several
of them share. Code that changes objects is a
class whose methods are proved against a specification function of the old state (`FindTarget`, `ReplaceAll`,
`StateOutcome`, `Next`, `Restored`, `Move`, `Laid`, ...); the lemmas beside it say what that specification means.

## Results that go against the code

Where a property one would expect fails, the model keeps the code as it is, and the condition under which the property
holds is proved.

- **Moving a page that is not the active one** (`TabView.MoveKeepsOkIff`): the active index is stale when the target is
  activated. Unless the active page keeps its index, the wrong window is hidden and two page windows stay visible, as in
  `TabView.TwoWindowsVisible`.
- **Print preview of an extreme page** (`PageFit.GetPageRect`): when the width for the full height exceeds the `int`
  range, `MulDiv` returns -1, which passes as a fitting width, and the rectangle is one unit inside out
  (`PageFit.InsideOut`). In all other cases the rectangle is right.
- **Menus restored after tracking** (`PopupMenus.RestoredExactlyIff`): an item comes back unchanged exactly when it was
  owner-draw before, or had no item data and a text of fewer than 100 characters. When an attached menu closes, the
  handler restores a zero state instead of the saved one, so there the state must have been zero too
  (`PopupMenus.NotRestored`).
- **Menu navigation** (`MenuNavigation.NeverEndsFromStart`): started from the button where the index wraps, with no
  button that stops it, the starting one included, the search never ends (`MenuNavigation.DisabledBar`). In every other
  case it ends.
- **Find next with a line end in the search text** (`RepeatedFind.VisitsStuck`): the selected text is compared only up to
  its first `'\r'`, so the control never recognises its own match and lands on it again and again
  (`RepeatedFind.SecondLineEndMissed`).
- **Rich Edit search from a selection of other text** (`RichEditControl.SelectionStartIff`): a downward search steps over
  the first character of the selection. It lands where it would from a bare caret exactly when no match begins at the
  selection start; `RichEditControl.MatchAtSelectionStartMissed` is a replace-all that misses such a match.
- **Rich Edit search upwards from the very start** (`RichEditControl.UpwardFindsIff`): a starting point of 0 reads as
  "need not wrap", so the search finds nothing whatever the text holds (`RichEditControl.UpwardFromStartMisses`). From
  anywhere else it finds a match exactly when one lies outside the selection on either side.
- **Checksum of long bodies** (`IcmpHeader.StoredIsReferenceIff`, `IcmpHeader.BoundIsSharp`): the stored checksum is the
  one of RFC 1071 exactly when the 32-bit sum does not wrap, or when it wraps a multiple of 65535 times and leaves a
  remainder, so that the carries lost cancel. 131068 body bytes are always safe, 131069 are not.
- **The 40 seconds after a contact** (`ScanProtocol.KeptIff`): deadlines follow the wall clock, so when that is set back
  the next contact brings the deadline forward (`ScanProtocol.ClockSetBack`). A session just contacted is kept in every
  run with given clock values exactly when none of them is 40 seconds or more above the contact or an earlier value.
- **A timer wait that ends with an error** (`ScanProtocol.ErasableIff`): its handler throws before it waits again, so the
  session stays registered for ever (`ScanProtocol.SessionLeftBehind`). All other registered sessions can still time out.
- **Replacing the bitmap of a command with two images** (`CommandImages.CommandBarImages.ReplaceBitmap`): the new image
  goes to the end of the list, so the command shows its former second image (`CommandImages.SecondImageShows`).

## Model

| member | source | states |
|---|---|---|
| DecimalCompare.VarDecCmp | external/wtl91/include/wtl/atlctrlx.h:3604-3705 | For all DECIMALs (96-bit mantissa, sign, any byte scale) the result is the order of the rational numbers sign·mantissa/10^scale; read off the bytes, the top bit of the sign byte makes it negative and magnitudes compare by cross products; VARCMP_NULL exactly when an operand is missing |
| DecimalCompare.CompareMagnitudes | external/wtl91/include/wtl/atlctrlx.h:3669-3699 | The scaling loop ends (the gap of the scales shrinks) and decides the order of the cross products of two non-zero magnitudes, through the overflow exit as well |
| DecimalCompare.ScaleUp | external/wtl91/include/wtl/atlctrlx.h:3672-3694 | One pass multiplies the mantissa exactly by 10^k and raises the scale by k, or reports overflow exactly when the product reaches 2^96 |
| DecimalCompare.LimbProduct | external/wtl91/include/wtl/atlctrlx.h:3680-3693 | The three 32-bit limb products with their carries assemble the exact product |
| DecimalCompare.SettledByOverflow | external/wtl91/include/wtl/atlctrlx.h:3688-3692 | A product beyond 96 bits makes the operand of smaller scale the larger number, whatever digits were still to come |
| DecimalCompare.SettledByMantissa | external/wtl91/include/wtl/atlctrlx.h:3644-3652 | With the smaller scale, a mantissa that is not smaller settles the comparison |
| DecimalCompare.CompareMantissas | external/wtl91/include/wtl/atlctrlx.h:3581-3601 | Comparing the high limb and then the low 64 bits is comparing the 96-bit numbers |
| DecimalCompare.LVCompareDecimal | external/wtl91/include/wtl/atlctrlx.h:3707-3718 | The sort callback returns the order of the numbers, and its exact reverse when descending |
| DecimalCompare.OrderFromBytes | external/wtl91/include/wtl/atlctrlx.h:3630-3664 | The order of two numbers from their sign bytes and limbs alone: below 0x80 positive, from 0x80 on negative, zeros of either sign equal |
| DecimalCompare.OrderIsTotalPreorder | external/wtl91/include/wtl/atlctrlx.h:3707-3718 | That order is reflexive, antisymmetric in sign and transitive; it is 0 exactly for equal numbers |
| DecimalCompare.OrderByCrossProduct | external/wtl91/include/wtl/atlctrlx.h:3604-3705 | The order of the rational numbers is that of mantissa times power of ten, which the scaling compares |
| TextSearch.FirstMatchIsFirst | external/wtl91/include/wtl/atlfind.h:690-714 | The match a downward search finds is a match, and there is none before it; none found means none exists in the range |
| TextSearch.LastMatchIsLast | external/wtl91/include/wtl/atlfind.h:690-714 | The same for an upward search: nothing matches between the match found and the starting point |
| TextSearch.MatchIsOccurrence | external/wtl91/include/wtl/atlfind.h:695-699 | A match is an occurrence of the search text, exact or up to the case of ASCII letters |
| TextSearch.ReplaceRound | external/wtl91/include/wtl/atlfind.h:418-422 | Replacing the first match and going on behind it is one round of the left-to-right replacement of a range |
| TextSearch.ReplaceNothing | external/wtl91/include/wtl/atlfind.h:405-413 | Without a match the replacement changes nothing and counts nothing |
| TextSearch.ReplaceAllShift | external/wtl91/include/wtl/atlfind.h:418-422 | What a replacement pass makes of a range depends only on the characters in it, wherever they stand after earlier edits |
| TextSearch.ReplaceAllLength | external/wtl91/include/wtl/atlfind.h:418-422 | Conservation: the length changes by the count times the difference of replacement and search text |
| TextSearch.ReplaceAllIdentity | external/wtl91/include/wtl/atlfind.h:395-425 | Replacing a text by itself, case-sensitively, gives the text back |
| EditControl.EditFindReplace.GetBufferLength | external/wtl91/include/wtl/atlfind.h:775-787 | The length is where the terminator stands |
| EditControl.EditFindReplace.EndOfLine | external/wtl91/include/wtl/atlfind.h:789-796 | Stops at the first carriage return at or after the index, or at the given end |
| EditControl.EditFindReplace.GetSelText | external/wtl91/include/wtl/atlfind.h:798-812 | Returns the selection, cut off at its first carriage return and nowhere else |
| EditControl.EditFindReplace.SameAsSelected | external/wtl91/include/wtl/atlfind.h:310-329 | True exactly when the selection has the length of the search text, holds no carriage return and matches it |
| EditControl.EditFindReplace.CompareAt | external/wtl91/include/wtl/atlfind.h:695-699 | String comparison up to the terminator is true exactly when the candidate ends there and matches |
| EditControl.EditFindReplace.CandidateMatches | external/wtl91/include/wtl/atlfind.h:690-705 | The terminator patched in behind a candidate decides the match and leaves the buffer as it was; no access leaves the text and its terminator |
| EditControl.EditFindReplace.SearchStart | external/wtl91/include/wtl/atlfind.h:564-626 | The adjusted starting point neither skips nor adds a candidate of the search, and "no candidate fits" means there is no match |
| EditControl.EditFindReplace.Scan | external/wtl91/include/wtl/atlfind.h:683-714 | The counting loop in either direction finds the first match from its start, or the last one up to it, or none exactly when there is none |
| EditControl.EditFindReplace.FindTextSimple | external/wtl91/include/wtl/atlfind.h:557-719 | Downwards it selects the nearest match at the selection start or behind it (strictly behind when the selection is a recognised match), upwards the nearest one strictly before the selection start; returns FALSE with the selection unchanged exactly when there is none; leaves the buffer unchanged |
| EditControl.TargetIsNearest | external/wtl91/include/wtl/atlfind.h:564-626 | Where a search lands, said of the matches before and behind the selection: none nearer, and none at all when it fails |
| EditControl.LastMatchClamp | external/wtl91/include/wtl/atlfind.h:598-626 | Moving an upward start back to the last place where the search text fits loses no match |
| EditControl.LastMatchTooLong | external/wtl91/include/wtl/atlfind.h:598-626 | A search text longer than the text has no match |
| EditControl.EditFindReplace.TextNotFound | external/wtl91/include/wtl/atlfind.h:331-336 | The next search is a first search again, and the program is told once |
| EditControl.EditFindReplace.ReplaceAndFindNext | external/wtl91/include/wtl/atlfind.h:418-422 | One round of the loop keeps "text made so far, then the pass over the rest" and strictly shortens the part behind the caret, whatever the replacement contains |
| EditControl.EditFindReplace.ReplaceLoop | external/wtl91/include/wtl/atlfind.h:415-424 | The loop ends, and text and count are those of the left-to-right pass |
| EditControl.EditFindReplace.OnReplaceAll | external/wtl91/include/wtl/atlfind.h:395-425 | Text before the selection start, then the non-overlapping left-to-right replacement of the rest; the count is that of the replacements; not found is reported, with the selection unchanged, exactly when the count is 0 |
| EditControl.RoundInPlace | external/wtl91/include/wtl/atlfind.h:418-422 | Editing the text that is being searched leaves the overall outcome as it was, with one replacement less to do |
| RepeatedFind.MatchesFromIsAll | external/wtl91/include/wtl/atlfind.h:588-596 | The reference list holds exactly the matches from a place on, overlapping ones included, strictly ascending |
| RepeatedFind.Landing | external/wtl91/include/wtl/atlfind.h:588-596 | A downward search lands on the head of that list and leaves its tail to the next search |
| RepeatedFind.VisitsEveryMatch | external/wtl91/include/wtl/atlfind.h:557-719 | For search text without a carriage return, n searches visit the next n matches in strictly increasing order, skipping none, until none is left |
| RepeatedFind.MatchesBeforeIsAll | external/wtl91/include/wtl/atlfind.h:583-587 | The upward reference list holds exactly the matches before a place, strictly descending |
| RepeatedFind.VisitsEveryMatchUp | external/wtl91/include/wtl/atlfind.h:557-719 | n upward searches visit the next n matches before the selection in strictly decreasing order, for any search text |
| RepeatedFind.NextVisit | external/wtl91/include/wtl/atlfind.h:588-596 | From a match just selected the search starts one further, exactly if the search text holds no carriage return; otherwise it lands on the same match |
| RepeatedFind.LineEndInMatch | external/wtl91/include/wtl/atlfind.h:789-812 | GetSelText returns a whole match exactly when the search text holds no carriage return |
| RepeatedFind.VisitsStuck | external/wtl91/include/wtl/atlfind.h:310-329 | With a carriage return in the search text every search lands on the match already selected |
| RepeatedFind.SecondLineEndMissed | external/wtl91/include/wtl/atlfind.h:310-329 | A text whose second line end is never found |
| RichEditControl.RichEditFindReplace.SameAsSelected | external/wtl91/include/wtl/atlfind.h:310-329 | True exactly when the selection has the length of the search text and matches it |
| RichEditControl.RichEditFindReplace.FindTextSimple | external/wtl91/include/wtl/atlfind.h:913-997 | In either direction and every state: the nearest match between the selection and the limit; else, if the search began inside the text and has not wrapped, the nearest one of the rest; the starting point is re-encoded exactly when it wraps; the selection stays when nothing is found. A fresh upward search finds something exactly when it does not begin at 0 and a match lies outside the selection |
| RichEditControl.RichEditFindReplace.SearchFrom | external/wtl91/include/wtl/atlfind.h:951-996 | The limits of both passes, and when the second pass takes place |
| RichEditControl.SearchIsRight | external/wtl91/include/wtl/atlfind.h:950-996 | The landing place and new starting point, said of the matches between explicit limits |
| RichEditControl.FindTextIsNearest | external/wtl91/include/wtl/atlfind.h:999-1007 | A pass over a range, down or up, finds the match nearest to where it starts, or none exactly when there is none |
| RichEditControl.FreshSearchLands | external/wtl91/include/wtl/atlfind.h:913-997 | A fresh search, down or up, lands on the match outside the selection that is met first going round, and on none exactly when there is none |
| RichEditControl.UpwardFindsIff | external/wtl91/include/wtl/atlfind.h:974-993 | An upward search finds a match exactly when it does not begin at the very start and one lies wholly before or behind the selection |
| RichEditControl.UpwardFromStartMisses | external/wtl91/include/wtl/atlfind.h:974-993 | A text with a match that an upward search from its start does not find |
| RichEditControl.SelectionStartIff | external/wtl91/include/wtl/atlfind.h:937-942 | From a selection of other text a downward search lands where it would from a bare caret exactly when no match begins at the selection start |
| RichEditControl.MatchAtSelectionStartMissed | external/wtl91/include/wtl/atlfind.h:937-942 | A text where replace-all misses such a match |
| RichEditControl.SelectionActsAsCaret | external/wtl91/include/wtl/atlfind.h:937-942 | Where no match begins at the selection start, replace-all as a whole comes out as from a bare caret |
| RichEditControl.RichEditFindReplace.ReplaceAndFindNext | external/wtl91/include/wtl/atlfind.h:418-422 | One round leaves what becomes of the text as it was, with one replacement done, and lowers the measure of the loop |
| RichEditControl.RichEditFindReplace.ReplaceLoop | external/wtl91/include/wtl/atlfind.h:415-424 | The loop ends in every state, with at least one replacement and the outcome of replacing the selected match and going on behind it |
| RichEditControl.RichEditFindReplace.FindFirst | external/wtl91/include/wtl/atlfind.h:405-413 | The search before the loop does the same without a replacement, in every state |
| RichEditControl.RichEditFindReplace.OnReplaceAll | external/wtl91/include/wtl/atlfind.h:395-425 | In every state, for every search and replacement text, the loop ends, and text and count are those of StateOutcome: a selected match first, then the text from the caret to the limit rewritten by one left-to-right pass and, after wrapping, the text up to the starting point; not found is reported exactly when the count is 0 |
| RichEditControl.SearchStep | external/wtl91/include/wtl/atlfind.h:937-996 | A search, wrapping or not, keeps the outcome: one replacement at the match it lands on and on from there; finding nothing means nothing is left to do |
| RichEditControl.Hit | external/wtl91/include/wtl/atlfind.h:418-422 | A replacement of any length, in either pass, keeps the image of the starting point and the outcome |
| RichEditControl.OutcomeIsOnePass | external/wtl91/include/wtl/atlfind.h:977-993 | While the caret has not passed the starting point, each part of the text as it was is rewritten once: however the first pass changes the length, the second ends where the search began |
| RichEditControl.FreshIsOnePass | external/wtl91/include/wtl/atlfind.h:395-425 | From a fresh search replace-all rewrites the text before and the text from the starting point on by one pass each |
| RichEditControl.ResumedIsOnePass | external/wtl91/include/wtl/atlfind.h:395-425 | With an earlier search under way replace-all rewrites once what that search has still to cover |
| RichEditControl.Progress | external/wtl91/include/wtl/atlfind.h:913-997 | In any state a round wraps, comes closer to the limit of the search, or is the last one |
| IcmpHeader.Header.Encode | modules/icmp_scanner/include/icmp_header.hpp:62-69 | Storing a 16-bit field makes it read back and leaves the other bytes alone |
| IcmpHeader.Header.SetIdentifier | modules/icmp_scanner/include/icmp_header.hpp:49-53 | Sets the identifier and nothing else |
| IcmpHeader.Header.SetChecksum | modules/icmp_scanner/include/icmp_header.hpp:49-53 | Sets the checksum and nothing else |
| IcmpHeader.Accumulate | modules/icmp_scanner/include/icmp_header.hpp:78-87 | The loop, two bytes a turn with an odd tail, leaves the word sum of header and body modulo 2^32 |
| IcmpHeader.TwoFoldsSuffice | modules/icmp_scanner/include/icmp_header.hpp:89-90 | For every 32-bit sum two folds carry everything around |
| IcmpHeader.ComputeChecksum | modules/icmp_scanner/include/icmp_header.hpp:74-92 | The checksum field gets the complement of the reduced sum modulo 2^32, which up to 131068 body bytes is the complement of the word-by-word end-around-carry sum of section 1 of RFC 1071; the other fields stay |
| IcmpHeader.OnesSumIsReduce | modules/icmp_scanner/include/icmp_header.hpp:78-90 | Word-by-word end-around-carry addition equals summing first and carrying at the end |
| IcmpHeader.TotalIsReference | modules/icmp_scanner/include/icmp_header.hpp:78-91 | The checksum of the standard is the complement of the reduced unbounded sum |
| IcmpHeader.NoOverflow | modules/icmp_scanner/include/icmp_header.hpp:78-87 | Up to 131068 body bytes the 32-bit sum cannot overflow |
| IcmpHeader.StoredIsReferenceIff | modules/icmp_scanner/include/icmp_header.hpp:78-91 | For every packet the stored value is the checksum of the standard exactly when the sum fits 32 bits or its wrap-arounds cancel |
| IcmpHeader.BoundIsSharp | modules/icmp_scanner/include/icmp_header.hpp:78-91 | With 131069 body bytes the stored checksum can be wrong |
| IcmpHeader.FinishedPacketVerifies | modules/icmp_scanner/include/icmp_header.hpp:74-92 | All words of a finished packet, checksum included, add up to 0xFFFF |
| PingPacket.Ipv4Header.Extract | modules/icmp_scanner/include/ipv4_header.hpp:82-93 | The stream fails exactly when no complete version-4 header of 20 to 60 bytes stands at the front; otherwise exactly the header with its options is consumed and stored |
| PingPacket.ExtractIcmp | modules/icmp_scanner/include/icmp_header.hpp:55-56 | Takes eight bytes, and fails exactly when the stream had failed or holds fewer |
| PingPacket.ReadReply | modules/icmp_scanner/src/ICMPScanner.cpp:35-43 | The three extractions yield the source address, ICMP header and session text, and an empty text whenever anything was missing |
| PingPacket.InputStream.ExtractWord | modules/icmp_scanner/src/ICMPScanner.cpp:43-43 | Reading a string skips white space, takes the characters up to the next, and fails if there are none |
| PingPacket.BuildEchoRequest | modules/icmp_scanner/src/ICMPScanner.cpp:112-132 | The packet sent carries type 8, code 0, the identifier and the session text, and its words add up to 0xFFFF |
| PingPacket.ReplyRoundTrip | modules/icmp_scanner/src/ICMPScanner.cpp:39-47 | A reply with 0 to 40 option bytes parses back to source address, ICMP header and the session text sent |
| PingPacket.ParsedTextIsSound | modules/icmp_scanner/src/ICMPScanner.cpp:35-47 | Conversely, a text is only ever taken from behind complete headers, is not empty and holds no white space |
| PingPacket.ParsesIff | modules/icmp_scanner/include/ipv4_header.hpp:82-93 | A datagram is a reply exactly when a complete version-4 header and an ICMP header are followed by something other than white space |
| ScanProtocol.RangeIsProper | modules/icmp_scanner/src/ICMPScanner.cpp:154-161 | The last address is never below the network address and stays in 32 bits: the guard never throws |
| ScanProtocol.LastAddressIsBroadcast | modules/icmp_scanner/src/ICMPScanner.cpp:155-155 | For a contiguous mask it is the broadcast address of the subnet |
| ScanProtocol.StepKeepsInv | modules/icmp_scanner/src/ICMPScanner.cpp:28-214 | Every step keeps the invariant of all sessions and chains described in the next row |
| ScanProtocol.EveryRun | modules/icmp_scanner/src/ICMPScanner.cpp:28-214 | In every interleaving: exactly one outstanding timeout completion per registered session (none once its wait failed), none per erased one; erasure only at or after the deadline of the latest send or reply; the addresses sent are an ascending gap-free prefix of the range |
| ScanProtocol.StoppedChainIsComplete | modules/icmp_scanner/src/ICMPScanner.cpp:84-105 | A chain that stopped without a failed send, its session still registered, has sent every address of the range once, in order; the 0 sentinel is never ambiguous |
| ScanProtocol.ChainNotStuck | modules/icmp_scanner/src/ICMPScanner.cpp:84-149 | A chain that has not stopped has a step of its own to take |
| ScanProtocol.ChainProgress | modules/icmp_scanner/src/ICMPScanner.cpp:84-149 | Each such step brings it closer to its end, and no other step touches it |
| ScanProtocol.ChainBound | modules/icmp_scanner/src/ICMPScanner.cpp:84-149 | Over every run a chain takes at most the steps it has still to do, three per address |
| ScanProtocol.WholeRangeSent | modules/icmp_scanner/src/ICMPScanner.cpp:84-182 | A run in which it takes that many steps ends with the chain stopped and exactly the whole range sent in order, unless a send failed or the session was gone |
| ScanProtocol.ChainLaw | modules/icmp_scanner/src/ICMPScanner.cpp:84-149 | What each step of a chain does next: a missing session and a failed send end it, otherwise the addresses follow each other up to the last |
| ScanProtocol.ScanSendsRange | modules/icmp_scanner/src/ICMPScanner.cpp:151-182 | From its registration on, a scan given enough steps sends exactly the addresses from network to last, in order, unless a send fails or the session goes |
| ScanProtocol.EchoRefreshesItsSession | modules/icmp_scanner/src/ICMPScanner.cpp:45-60 | The echo of a request, with any IPv4 options, refreshes the session that sent it and no other |
| ScanProtocol.ContactRestartsTimer | modules/icmp_scanner/src/ICMPScanner.cpp:49-60 | A registration, a lookup before a send and an accepted reply set the deadline to 40 seconds from now and abort exactly the pending waits |
| ScanProtocol.OnlyContactMovesDeadline | modules/icmp_scanner/src/ICMPScanner.cpp:28-214 | No other step moves the deadline of a session |
| ScanProtocol.OthersIgnored | modules/icmp_scanner/src/ICMPScanner.cpp:45-60 | A datagram of another type, another identifier or without a registered text changes nothing |
| ScanProtocol.ErasedIff | modules/icmp_scanner/src/ICMPScanner.cpp:192-202 | A step erases a session exactly when it handles the end of one of its waits, not an error, at or after the deadline |
| ScanProtocol.DeadlineFollowsContact | modules/icmp_scanner/src/ICMPScanner.cpp:49-60 | After every run the deadline of a session is 40 seconds after its latest contact, read off the steps of the run |
| ScanProtocol.ContactKeepsSession | modules/icmp_scanner/src/ICMPScanner.cpp:49-60 | After a contact the session stays registered in every run whose clock does not rise 40 seconds above the contact or a value it was set back to |
| ScanProtocol.KeptIff | modules/icmp_scanner/src/ICMPScanner.cpp:28-214 | And no longer: if the clock does rise so far, some run with these clock values erases the session |
| ScanProtocol.SteadyIs | modules/icmp_scanner/src/ICMPScanner.cpp:200-202 | What "does not rise so far" means, value by value |
| ScanProtocol.ClockSetBack | modules/icmp_scanner/src/ICMPScanner.cpp:116-125 | A run where the clock is set back and the session goes earlier |
| ScanProtocol.WaitFailedForEver | modules/icmp_scanner/src/ICMPScanner.cpp:184-214 | A session whose wait ended with an error stays registered in every continuation |
| ScanProtocol.ErasingRun | modules/icmp_scanner/src/ICMPScanner.cpp:192-202 | Any other registered session is erased by a run of at most three steps |
| ScanProtocol.ErasableIff | modules/icmp_scanner/src/ICMPScanner.cpp:184-214 | A registered session can still be erased exactly as long as its wait has not ended with an error |
| ScanProtocol.SessionLeftBehind | modules/icmp_scanner/src/ICMPScanner.cpp:184-190 | A run that registers a session, fails its wait, and never gets rid of it whatever follows |
| ScanProtocol.ICMPScanner.Scan | modules/icmp_scanner/src/ICMPScanner.cpp:151-182 | Refines the registration step; both exceptions are unreachable |
| ScanProtocol.ICMPScanner.EchoRequestLookup | modules/icmp_scanner/src/ICMPScanner.cpp:116-125 | Refines the lookup step: the deadline of a registered session is 40 seconds from now and no wait is pending; otherwise the chain ends |
| ScanProtocol.ICMPScanner.EchoRequestSend | modules/icmp_scanner/src/ICMPScanner.cpp:127-148 | Refines the send step; the packet names the session and the process |
| ScanProtocol.ICMPScanner.HandleSend | modules/icmp_scanner/src/ICMPScanner.cpp:84-105 | Refines the completion of a send |
| ScanProtocol.ICMPScanner.HandleReceive | modules/icmp_scanner/src/ICMPScanner.cpp:28-82 | Refines the reception of any datagram, malformed ones included |
| ScanProtocol.ICMPScanner.HandleSessionTimeout | modules/icmp_scanner/src/ICMPScanner.cpp:184-214 | Refines the timeout step: erase at the deadline, wait again before it, nothing on an error or without a session |
| PopupMenus.RestoredExactlyIff | external/wtl91/include/wtl/atlctrlw.h:1390-1409 | When an item comes back exactly as it was, for both cleanups; after tracking, type and state always do |
| PopupMenus.NotRestored | external/wtl91/include/wtl/atlctrlw.h:1390-1409 | Items that do not come back: a disabled one of an attached menu, and any with data of its own |
| PopupMenus.TextRestored | external/wtl91/include/wtl/atlctrlw.h:1301-1325 | A text comes back up to its first 99 characters, and a separator without any |
| PopupMenus.OwnerDrawFlag | external/wtl91/include/wtl/atlctrlw.h:1311-1325 | The owner-draw flag is bit 8 of the type |
| PopupMenus.SeparatorFlag | external/wtl91/include/wtl/atlctrlw.h:1311-1325 | The separator flag is bit 11 of the type |
| PopupMenus.CommandBar.Pop | external/wtl91/include/wtl/atlctrlw.h:105-117 | Takes the last handle pushed, or the null handle from an empty stack |
| PopupMenus.CommandBar.ButtonIndex | external/wtl91/include/wtl/atlctrlw.h:1331-1339 | The first image index of the command, -1 exactly when it has none |
| PopupMenus.CommandBar.ConvertItem | external/wtl91/include/wtl/atlctrlw.h:1311-1351 | Converting an item, already converted and foreign owner-draw ones included, keeps the correspondence of items and records and loses nothing but item data and text beyond 99 characters; the record refers to the first image of the item's command, or to none exactly when it has none |
| PopupMenus.CommandBar.OnInitMenuPopup | external/wtl91/include/wtl/atlctrlw.h:1255-1358 | Nothing happens for the system menu and foreign menus; Vista menus get bitmaps only; otherwise, opened for the first time or again, all items are converted, each with the image of its command, and the handle is on the stack |
| PopupMenus.CommandBar.SetBitmaps | external/wtl91/include/wtl/atlctrlw.h:1280-1299 | With Vista menus every item of the menu gets the bitmap of its command, or none, and no other item changes |
| PopupMenus.CommandBar.RestoreItem | external/wtl91/include/wtl/atlctrlw.h:2879-2901 | Restores one item and frees its record, which is still in use at that moment; other items stay |
| PopupMenus.CommandBar.RestoreMenus | external/wtl91/include/wtl/atlctrlw.h:2869-2905 | Popping until the null handle empties the stack, restores all opened menus, and frees every record exactly once |
| PopupMenus.CommandBar.DoTrackPopupMenu | external/wtl91/include/wtl/atlctrlw.h:2826-2907 | For any sequence of popups, repetitions and the system menu included: opened menus are restored with type, state and text, all other items and foreign owner-draw ones are untouched, no record is left or freed twice, the stack is empty |
| PopupMenus.CommandBar.UseAttachedMenu | external/wtl91/include/wtl/atlctrlw.h:1360-1418 | The same for an attached menu, except that converted items get a zero state |
| PopupMenus.CommandBar.OnMenuSelect | external/wtl91/include/wtl/atlctrlw.h:1360-1418 | The closing message restores all converted menus of an attached bar and leaves no record |
| PopupMenus.RecordHolds | external/wtl91/include/wtl/atlctrlw.h:2879-2901 | The record an item points to holds type, state and text of the item that was opened |
| PopupMenus.RestoreKeepsOwners | external/wtl91/include/wtl/atlctrlw.h:2879-2901 | Restoring an item and freeing its record keeps records and converted items one to one |
| PopupMenus.RestoreKeepsItems | external/wtl91/include/wtl/atlctrlw.h:2879-2901 | Restoring one item disturbs no other item |
| PopupMenus.ConvertKeepsItems | external/wtl91/include/wtl/atlctrlw.h:1311-1351 | Converting one item disturbs no other, in the same menu or elsewhere |
| PopupMenus.ConvertKeepsImages | external/wtl91/include/wtl/atlctrlw.h:1331-1339 | Converting an item with the right image keeps the images of all others |
| PopupMenus.AllRestored | external/wtl91/include/wtl/atlctrlw.h:2869-2905 | When no menu is left on the stack, no record is left either, and every opened item is restored |
| MenuNavigation.GetNextMenuItem | external/wtl91/include/wtl/atlctrlw.h:2939-2968 | Ends whenever the start is not the wrap point or some button stops it; returns the first enabled visible button going right, -2 if a clipped one comes first, -1 if there is none but the start |
| MenuNavigation.GetPreviousMenuItem | external/wtl91/include/wtl/atlctrlw.h:2909-2937 | The same going left |
| MenuNavigation.FirstStopExists | external/wtl91/include/wtl/atlctrlw.h:2909-2968 | If some other button can stop the search, one of them is the first by cyclic distance: the two contracts leave no case open |
| MenuNavigation.NeverEndsFromStart | external/wtl91/include/wtl/atlctrlw.h:2909-2968 | Otherwise the loop runs for any number of turns: the termination condition is exact |
| MenuNavigation.DisabledBar | external/wtl91/include/wtl/atlctrlw.h:2939-2968 | Two disabled buttons on which it does |
| TabView.ActivateKeepsOk | external/wtl91/include/wtl/atlctrlx.h:4013-4038 | Activating any page leaves exactly that page's window visible |
| TabView.InsertKeepsOk | external/wtl91/include/wtl/atlctrlx.h:4211-4266 | A page inserted anywhere becomes the active and only visible one |
| TabView.RemoveKeepsOk | external/wtl91/include/wtl/atlctrlx.h:4268-4318 | Removing any page keeps the active index valid, -1 exactly without pages, and only the active window visible |
| TabView.RemoveActivates | external/wtl91/include/wtl/atlctrlx.h:4268-4318 | Removing another page keeps the same page active; removing the active one activates its left neighbour, or the new first page |
| TabView.MoveIsPermutation | external/wtl91/include/wtl/atlctrlx.h:4795-4838 | Moving puts the page at the target index, keeps the order of the rest, loses and duplicates nothing |
| TabView.MovedPage | external/wtl91/include/wtl/atlctrlx.h:4795-4838 | Where every single page stands after a move, and that the reverse move undoes it |
| TabView.MoveKeepsOkIff | external/wtl91/include/wtl/atlctrlx.h:4795-4838 | Exactly the active window stays visible if and only if the moved page is the active one or the active page keeps its index |
| TabView.MoveActivates | external/wtl91/include/wtl/atlctrlx.h:4795-4838 | After any move the moved page is active and visible, and the page hidden is the one now at the old active index |
| TabView.TwoWindowsVisible | external/wtl91/include/wtl/atlctrlx.h:4795-4838 | Three pages where a move leaves two windows visible |
| TabView.RunKeepsOk | external/wtl91/include/wtl/atlctrlx.h:4211-4318 | Over every run of inserting, removing, activating and dragging the active page, the invariant holds |
| TabView.TabView.SetActivePage | external/wtl91/include/wtl/atlctrlx.h:4013-4038 | Refines the activation |
| TabView.TabView.InsertPage | external/wtl91/include/wtl/atlctrlx.h:4211-4266 | Refines the insertion, and changes nothing when the control refuses the item |
| TabView.TabView.RemovePage | external/wtl91/include/wtl/atlctrlx.h:4268-4318 | Refines the removal; the window is destroyed exactly when the view is set to do so |
| TabView.TabView.MovePage | external/wtl91/include/wtl/atlctrlx.h:4795-4838 | Refines the move; invalid indices, an item that cannot be read and a copy that is refused change nothing |
| TabView.TabView.MoveItem | external/wtl91/include/wtl/atlctrlx.h:4819-4831 | Inserting the copy and deleting the original, in either direction, is the move of the pages |
| SortList.SortListView.OnInsertColumn | external/wtl91/include/wtl/atlctrlx.h:3729-3749 | The sort types stay matched one to one with the columns, and the sort column keeps naming the same column |
| SortList.SortListView.MakeRoom | external/wtl91/include/wtl/atlctrlx.h:3736-3743 | The shifting loop is an insertion at the new column's place |
| SortList.SortListView.OnDeleteColumn | external/wtl91/include/wtl/atlctrlx.h:3751-3766 | The same for deletion; the sort column becomes none exactly when the sorted column is deleted |
| SortList.SortListView.LendItemData | external/wtl91/include/wtl/atlctrlx.h:3219-3226 | Every row's data word is saved in a record of its own and replaced by that record |
| SortList.SortListView.ReturnItemData | external/wtl91/include/wtl/atlctrlx.h:3297-3306 | Every row gets the data word its record holds, and the record's string is freed |
| SortList.SortListView.SortRows | external/wtl91/include/wtl/atlctrlx.h:3219-3306 | Whatever permutation the control chooses, the rows end up permuted with their own data, and the records freed are those of the rows |
| SortList.SortListView.DoSortItems | external/wtl91/include/wtl/atlctrlx.h:3179-3318 | For any permutation by the control each row has its own original item data again; each record's string is freed exactly once, for the kinds of sort that copy texts; the sort column changes only on success |
| SortList.PermutationInRange | external/wtl91/include/wtl/atlctrlx.h:3297-3306 | The rows the control returns all come from rows it was given |
| HyperLabel.CalcLabelParts | external/wtl91/include/wtl/atlctrlx.h:1679-1724 | The single-pass scan finds the first opening tag, the first closing tag behind it, and the three parts |
| HyperLabel.ParseInvertsPrint | external/wtl91/include/wtl/atlctrlx.h:1679-1724 | left, tag, link, tag, right with tags in any case parses back to exactly these parts, if left holds no opening tag and link no closing one; empty parts included |
| HyperLabel.PartsTileLabel | external/wtl91/include/wtl/atlctrlx.h:1679-1724 | When both tags are found, the parts and the tags tile the label |
| HyperLabel.TagChars | external/wtl91/include/wtl/atlctrlx.h:1698-1711 | The two tags letter by letter, either case of the A |
| HyperLabel.NoOpeningTag | external/wtl91/include/wtl/atlctrlx.h:1679-1724 | Without an opening tag no part is set |
| HyperLabel.NoClosingTag | external/wtl91/include/wtl/atlctrlx.h:1679-1724 | Without a closing tag behind it the first opening tag ends the left part, and the link is empty |
| HyperLabel.TagShape | external/wtl91/include/wtl/atlctrlx.h:1691-1714 | A tag begins with '<' and holds no other, so no tag can begin inside another |
| HyperLabel.FirstTagIs | external/wtl91/include/wtl/atlctrlx.h:1691-1714 | A tag behind tag-free text is the first one: none straddles its beginning |
| PageFit.GetPageRect | external/wtl91/include/wtl/atlprint.h:763-793 | The result lies inside the given rectangle, fills one dimension, is centred to within a pixel and has the page's proportions to within half a unit, if and only if the width for the full height fits an int; negative sizes change nothing |
| PageFit.InsideOut | external/wtl91/include/wtl/atlprint.h:763-793 | A device size for which the rectangle comes out inside out |
| PageFit.OneSideFits | external/wtl91/include/wtl/atlprint.h:778-778 | The assertion in the code: when the full height cannot be used, the full width can |
| PageFit.WithinHalf | external/wtl91/include/wtl/atlprint.h:776-777 | MulDiv's rounding is within half a unit of the exact ratio |
| StatusPanes.MultiPaneStatusBar.GetPaneIndexFromID | external/wtl91/include/wtl/atlctrlx.h:2270-2279 | The first pane with that identifier, -1 exactly when there is none |
| StatusPanes.MultiPaneStatusBar.DefaultPane | external/wtl91/include/wtl/atlctrlx.h:2143-2151 | The first default pane, or the number of panes |
| StatusPanes.MultiPaneStatusBar.Shift | external/wtl91/include/wtl/atlctrlx.h:2153-2163 | Moves exactly the edges of a stretch |
| StatusPanes.MultiPaneStatusBar.SetPaneWidth | external/wtl91/include/wtl/atlctrlx.h:2125-2166 | The pane gets the requested width, all other fixed panes keep theirs, the default pane absorbs the difference and the right edge of the bar stays; unknown identifiers change nothing |
| StatusPanes.MultiPaneStatusBar.UpdatePanesLayout | external/wtl91/include/wtl/atlctrlx.h:2232-2268 | Lays the panes out towards a target edge, as characterised in the next row |
| StatusPanes.LaidIsStable | external/wtl91/include/wtl/atlctrlx.h:2232-2268 | Only the default pane's width changes, the last edge meets the target or nothing changes, and a second call changes nothing more |
| CommandImages.CommandBarImages.Add | external/wtl91/include/wtl/atlctrlw.h:690-758 | The three arrays stay aligned; a command new to the list shows its image, every other command what it showed before |
| CommandImages.CommandBarImages.Find | external/wtl91/include/wtl/atlctrlw.h:835-837 | The first entry of the command, -1 exactly when it has none |
| CommandImages.CommandBarImages.RemoveImage | external/wtl91/include/wtl/atlctrlw.h:830-856 | Removes the first entry from all three arrays; every other command shows what it showed before |
| CommandImages.CommandBarImages.ReplaceIcon | external/wtl91/include/wtl/atlctrlw.h:808-828 | The command shows the new image, every other what it showed before; alignment is kept |
| CommandImages.CommandBarImages.ReplaceBitmap | external/wtl91/include/wtl/atlctrlw.h:770-797 | The first entry leaves all three arrays and the new image goes to their ends, in step. Other commands are unaffected, even when the second half fails; the command shows the new image exactly when it had one entry, otherwise its former second one |
| CommandImages.SecondImageShows | external/wtl91/include/wtl/atlctrlw.h:770-797 | For any command added twice, the replaced list shows the second image |
| CommandImages.AppendKeepsOthers | external/wtl91/include/wtl/atlctrlw.h:711-720 | An entry appended affects only a command that had none |
| CommandImages.RemoveKeepsOthers | external/wtl91/include/wtl/atlctrlw.h:838-848 | Removing an entry of one command changes the image of no other, although all later indices shift |
| CommandImages.UpdateFirstEntry | external/wtl91/include/wtl/atlctrlw.h:812-824 | Overwriting the first entry changes exactly that command's image |
| CommandImages.ImageOfFirst | external/wtl91/include/wtl/atlctrlw.h:1288-1294 | Looking a command up by its first index gives the image of the command |

## Left out

- Sockets, the I/O service, threads and `Runnable`: what remains is the clock, the pending waits, the completions and the atomic steps. A step may be taken at any time its event is possible.
- Session identifiers: a session is named by a non-empty text without white space, unique per scan, which is what is sent and received. Text that is not a UUID, and other spellings of a UUID, name no session.
- HandleSend calls EchoRequest in the same handler; the model lets other steps come in between, which covers more interleavings than the program has.
- Log output, and the exceptions that only lead to it.
- Windows, drawing, themes, focus, hooks and message forwarding. What a control answers (item accepted, column deleted, sort succeeded) is a parameter.
- In `atlfind.h`, the multi-byte, Unicode and shadow-buffer variants. Characters are compared exactly or with ASCII case folding, not by locale. The whole-word flag is not modelled: the Edit control ignores it, and for Rich Edit it only reaches the control's own search.
- An empty search text, which the dialog does not offer, and texts beyond the 32-bit range or the control's text limit.
- Rich Edit: EM_FINDTEXTEX is taken to return the first match wholly inside its range, or the last one when searching upwards. Its special reading of -1 as the end of the text is not modelled; a search passes -1 only if text was deleted after it began.
- HyperLabel: CompareString near the end of the label is taken to fail on the terminator; what lies behind the buffer is not modelled.
- Menus: bitmap items, submenu handles, forwarding to the window procedures, resource loading, and the bitmaps of images as GDI objects. A Vista menu bitmap stands for the image it was made from.
- Sorting: how texts are converted and which comparison is called; the control may apply any permutation. Sort arrows and the column images are left out too.
- DecimalCompare: the list view's conversion of text to DECIMAL, and the comparison callbacks for other types.
- TabView: tab titles and images, the window menu, and RemoveAllPages; a page window used for two pages at once is excluded from the invariant.
- StatusPanes.MultiPaneStatusBar.UpdatePanesLayout: a bar without panes is excluded, where the code would read the edge before the first one; SetParts and GetParts are taken to succeed.
- PageFit: the `MulDiv` of Windows CE; edges so far apart that their difference is not an int.
- Memory exhaustion and trace output everywhere.
- The downloader, the NetBIOS scanner, the port-mapping wrappers, the agent identifiers and the remaining samples, whose logic is thin or input and output only.
