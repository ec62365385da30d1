# Verified models of XNU kernel components

This project models, in Dafny, the parts of XNU whose correctness is not visible from reading one
function, and proves what they are for:

- `libkern/mkext.c`: the LZSS encoder's 256 binary search trees in flat arrays (`SearchTrees.dfy`,
  `Encoder.dfy`), the LZSS decoder and its format (`LzssDecoder.dfy`, `LzssFormat.dfy`) and the Adler-32
  checksum (`Adler32.dfy`);
- `security/mac_base.c` and `security/mac_internal.h`: the MAC policy list (`PolicyList.dfy`,
  `PolicyRegistry.dfy`), policy walks beside late loading and unloading (`PolicyWalk.dfy`), the
  combination of policy results (`MacCheck.dfy`) and label text (`LabelText.dfy`, `LabelNames.dfy`);
- `security/mac_label.c`: label slots and the zone of owned labels (`MacLabel.dfy`);
- `libkern/OSKextVersion.c`: the version parser and printer (`KextVersion.dfy`, `KextText.dfy`);
- `libkdd/kcdata.h`: the kcdata reader (`KcData.dfy`);
- `libkern/kernel_mach_header.c`: load-command and section walking (`MachHeader.dfy`).

`dafny verify dfyconfig.toml` checks everything.

## How to read the main results

**Search trees.** No tree datatype is used. Each tree has a ghost in-order listing, and each node the
interval of that listing its subtree covers, so being well formed is a local condition on a node
(`SearchTrees.Wf`). `InsertNode` reports the true longest match although it compares along one path
only: the search keeps the new string bracketed between two listed neighbours it has compared, and a
string further away in lexicographic order never matches better (`LessChain`, `BracketEnd`).
Deleting a node with two children is shown to be cutting out its predecessor and letting that node
take over (`DeleteBothSame`).

**Decoder.** `Decode` is plain sliding-window decoding of a list of tokens over one growing history.
`Decompress`, with its ring and its self-counting flag register, is proved to write exactly that, cut
to the destination, for every source and any content of the ring cells it does not initialise. The
end of the destination is looked at only after a byte was stored, so a destination of length 0 still
receives one. `WithinDestination` says exactly when the output stays inside, in terms of the length
and the first byte of the source, and `OneTooMany` has the shortest source for which it does not.
`LzssFormat` says what the format is without the decoder's own definitions: tokens are packed into bytes,
played on a ring whose cells are described by the last write to each, and `DecodePacked` shows that
decoding the bytes is playing the tokens.

**Policy list.** `Registers` describes registration through the least free handle and the least free
slot; the class finds both through its hints and counters. Every registration keeps the invariant. An
unregistration does so exactly if the policy refuses to be unloaded, or its handle is at or above
`staticmax` and `maxindex` is not decremented at 0 (`UnregisterInv`); the code checks neither of the
latter two. `HistoryKeeps` covers every history whose unregistrations meet that condition, with no
condition on what is loaded, or when. `RegisterFails`, `RegisterPlaces`, `RegisterCounts` and
`UnregisterSays` describe both operations field by field, and `LateStatics` that after the boot only policies
that refuse to be unloaded become static. `FirstUnloadBreaks` has the shortest runs that break it, and
`LostHandle` shows the consequence for the handle search.

**Walks.** Threads interleave freely; every read of a counter or an entry, locking, sleeping, counting
and running a hook are steps of their own. No hook of an unloaded policy runs, and the list changes
only while nobody is counted. The comparison of `numloaded` with `staticmax` at
`security/mac_base.c:303` reads the two without a lock, and C leaves the order open; the model allows
both. A policy loaded for the whole of a walk is visited exactly once if and only if the walk is not
`Overtaken`: it read `numloaded` first, the policy was dynamic then, and by the time it read
`staticmax` that had caught up with the number read. An overtaken walk does not visit the policy at
all; `OvertakenRun` is such a run. `RefusalHolds` and `GrantHolds` carry this over to `MAC_CHECK` and
`MAC_GRANT`, and `OvertakenLoses` shows that the condition cannot be dropped.

**Label text.** `Externalize` succeeds exactly if every hook obliges, no required namespace is missing and
the buffer lets the calls through (`Goes`): all but the last fit, and the last fits or is taken back after
its name did. `RoundTrip` goes from the trimmed text to what `Internalize` hands on. After a last call
that did not fit and was taken back the comma stays, and `UntrimmedFails` shows what that text leads to.

**Labels.** The zone carries the history of operations on it, and its contents are stated as functions
of that history: who owns a label, what a variable holds, what was last set in a slot.
`HistorySound` is about all histories, on any set of variables, in which no label is freed by address
while a variable holds it; `FreeIff` shows that this is the exact condition.

**Versions.** `WrittenParses` and `ParsesWritten` together say exactly which texts are versions and which
version each denotes, in the characters of the text; `SpelledParses` is the case of ordinary decimal numbers.
`PrintThenParse` covers every integer. The documentation of the format
(`libkern/libkern/OSKextLibPrivate.h:655-660`) shows two-digit minor and revision numbers and levels
from 1; the code takes four digits, allows level 0 except for candidates, and accepts a period before
the stage after a four-digit revision. The model follows the code.

## Assumptions

- The target is macOS: 7 label slots, the policy array that grows by chunks.
- In `PolicyWalk`, the boot is over (`mac_late` is set), and the change an exclusive writer makes to the
  list is one step.
- The slot mask is modelled as the set of its one bits, with `ffs` over 32 bits.
- Policy hooks are arbitrary functions of the policy and the label namespace. An externalize hook
  appends its text in one piece, and its answer does not depend on whether that fits. Strings contain
  no NUL.
- A pointer variable that was never assigned a label holds NULL, and only the modelled operations
  assign it. What the zone's allocator returns is a parameter.
- kcdata and its fields are little-endian. Addresses and sizes are unbounded integers; pointer
  wrap-around is not modelled. Mach-O structures have their 64-bit sizes.

## Model

| member | source | states |
|---|---|---|
| SearchTrees.LessChain | xnu-8020.140.41/libkern/mkext.c:242-246 | The order of F-byte strings is transitive, and of three strings in order the outer two share no longer prefix than either neighbouring pair |
| SearchTrees.LessIff | xnu-8020.140.41/libkern/mkext.c:242-246 | One string is before another exactly if it has the smaller byte where they first differ |
| SearchTrees.EmptyWf | xnu-8020.140.41/libkern/mkext.c:187-203 | With every parent cell and every root NIL, all 256 trees are well formed and empty |
| SearchTrees.SearchStep | xnu-8020.140.41/libkern/mkext.c:224-253 | One comparison either finds an equal string, which is then the longest match, or leaves the new string bracketed by two compared neighbours in a strictly smaller subtree |
| SearchTrees.BracketEnd | xnu-8020.140.41/libkern/mkext.c:224-253 | When the bracket is empty the new string belongs exactly there, and no node of the tree matches better than the best one compared |
| SearchTrees.HangWf | xnu-8020.140.41/libkern/mkext.c:225-240 | Hanging a node in the gap where its string belongs keeps all trees well formed, with the node listed at that index |
| SearchTrees.EqualKeys | xnu-8020.140.41/libkern/mkext.c:254-264 | Replacing a node by one with the same string keeps all trees well formed |
| SearchTrees.CutWf | xnu-8020.140.41/libkern/mkext.c:276-300 | Cutting out a node with at most one child keeps all trees well formed and drops that node from its listing only |
| SearchTrees.DeleteBothSame | xnu-8020.140.41/libkern/mkext.c:280-300 | What delete_node writes for a node with two children agrees, on all live nodes, with cutting out the predecessor and letting it take over |
| SearchTrees.DeleteBothWf | xnu-8020.140.41/libkern/mkext.c:280-300 | Deleting a node with two children keeps all trees well formed and drops that node from its listing only |
| SearchTrees.PokeWf | xnu-8020.140.41/libkern/mkext.c:205-212 | Text that no live node's string covers can change without disturbing any tree |
| SearchTrees.ListedIffLive | xnu-8020.140.41/libkern/mkext.c:178-186 | The listing of tree c holds exactly the nodes with a parent whose string begins with c |
| SearchTrees.ClimbsToRoot | xnu-8020.140.41/libkern/mkext.c:178-186 | There are no cycles: from every node in a tree the parent links reach the sentinel of its first byte |
| Encoder.EncodeState.constructor | xnu-8020.140.41/libkern/mkext.c:187-203 | After init_state all trees are empty and well formed and the text starts with N-F spaces |
| Encoder.EncodeState.PutText | xnu-8020.140.41/libkern/mkext.c:205-212 | A byte of text under no live node can be written at any time: every tree keeps its nodes and stays well formed |
| Encoder.EncodeState.Compare | xnu-8020.140.41/libkern/mkext.c:242-246 | The comparison loop yields the length of the common prefix and the sign of the lexicographic order |
| Encoder.EncodeState.Descend | xnu-8020.140.41/libkern/mkext.c:219-253 | The descent ends at an equal string or at the one place where the new string belongs, and match_position and match_length are the longest match in the tree |
| Encoder.EncodeState.InsertNode | xnu-8020.140.41/libkern/mkext.c:213-265 | For every well-formed state and absent node: trees stay well formed, the longest match over the whole tree is reported, the listing gains the node at its sorted place or has it in place of the equal one, and the other 255 trees and their cells are untouched |
| Encoder.EncodeState.Predecessor | xnu-8020.140.41/libkern/mkext.c:281-285 | Going left once and then right to the end finds the node listed just before p |
| Encoder.EncodeState.DeleteNode | xnu-8020.140.41/libkern/mkext.c:268-301 | Trees stay well formed, exactly p leaves its listing with the rest in order, a node in no tree changes nothing, and the other 255 trees and their cells are untouched |
| LzssDecoder.RegisterCounts | xnu-8020.140.41/libkern/mkext.c:128-136 | Bit 8 of the register stays set for exactly eight shifts, and bit 0 is then bit b of the flag byte |
| LzssDecoder.NextFlag | xnu-8020.140.41/libkern/mkext.c:128-135 | The register is refilled exactly after eight items, and the bit tested governs the next token of the source |
| LzssDecoder.RingPut | xnu-8020.140.41/libkern/mkext.c:146-147 | Storing a byte keeps the ring equal to the last N bytes of history |
| LzssDecoder.RingGet | xnu-8020.140.41/libkern/mkext.c:162-162 | Reading ring cell pos is reading the byte a fixed distance of 1 to N places back in history |
| LzssDecoder.Emit | xnu-8020.140.41/libkern/mkext.c:142-147 | One byte is appended to the output and, unless the end of the destination is reached, to the ring |
| LzssDecoder.CopyRun | xnu-8020.140.41/libkern/mkext.c:159-169 | The copy loop repeats bytes from one fixed distance back, or stops as soon as the destination is full |
| LzssDecoder.Decompress | xnu-8020.140.41/libkern/mkext.c:108-174 | For every source, destination length and content of the unset ring cells, the output is the sliding-window decoding of the source cut to the destination (to one byte if its length is 0), and the memory behind it is unchanged |
| LzssDecoder.WithinDestination | xnu-8020.140.41/libkern/mkext.c:127-158 | The output stays within the destination if and only if that has room for a byte, or the source has fewer than two bytes, or just two and a flag byte that announces a copy |
| LzssDecoder.OneTooMany | xnu-8020.140.41/libkern/mkext.c:136-145 | With a destination of length 0, a flag byte 1 and a literal store one byte |
| LzssDecoder.DecodeBound | xnu-8020.140.41/libkern/mkext.c:127-171 | 17 times the bytes out is at most 144 times the bytes in |
| LzssDecoder.SmallerDestination | xnu-8020.140.41/libkern/mkext.c:127-174 | What a smaller destination receives for a source is a prefix of what a larger one receives for that source or any longer one |
| LzssDecoder.MoreSource | xnu-8020.140.41/libkern/mkext.c:127-171 | Cutting a source short loses output only at the end |
| LzssFormat.TokensPacked | xnu-8020.140.41/libkern/mkext.c:127-171 | A literal as its byte and a copy as 12 bits of position and 4 bits of length less 3, eight to a flag byte with the first in bit 0, are the tokens the decoder finds |
| LzssFormat.CellIs | xnu-8020.140.41/libkern/mkext.c:120-125 | Looking a distance back in history is reading the ring cell, which holds the last byte written to it, a space, or what it held before |
| LzssFormat.DecodePacked | xnu-8020.140.41/libkern/mkext.c:108-174 | For every list of tokens, decoding its bytes gives what playing the tokens on the ring writes |
| Adler32.DeferredReduction | xnu-8020.140.41/libkern/mkext.c:64-65 | Reducing once after a block gives what reducing modulo 65521 after every byte gives |
| Adler32.NoOverflow | xnu-8020.140.41/libkern/mkext.c:33-34 | Within a block of NMAX bytes neither sum passes 2^32-1 |
| Adler32.LargestBlock | xnu-8020.140.41/libkern/mkext.c:33-34 | Blocks of n bytes fit whatever the sums and the bytes if and only if n is at most NMAX; the bound is attained |
| Adler32.AddBlock | xnu-8020.140.41/libkern/mkext.c:53-63 | Sixteen at a time and then one by one, the loops add exactly the bytes of the block |
| Adler32.Adler32 | xnu-8020.140.41/libkern/mkext.c:42-68 | The checksum is the per-byte definition of Adler-32 (section 2.2 of RFC 1950) for every buffer, and fits 32 bits |
| Adler32.ChecksumIs | xnu-8020.140.41/libkern/mkext.c:45-67 | The low half is one more than the sum of the bytes and the high half their weighted sum plus the length, both modulo 65521 |
| PolicyList.Initial | xnu-8020.140.41/security/mac_base.c:333-352 | The initial list satisfies the invariant |
| PolicyList.AllStatic | xnu-8020.140.41/security/mac_base.c:303-308 | The test numloaded <= staticmax holds exactly when no handle at or above staticmax is loaded |
| PolicyList.RegisterInv | xnu-8020.140.41/security/mac_base.c:647-743 | Registration keeps counters, names and slots consistent, whatever the policy and the outcome |
| PolicyList.RegisterFails | xnu-8020.140.41/security/mac_base.c:630-698 | Registration fails with 1 exactly if late and not allowed to be, else with 17 exactly if the name is taken, else with 12 exactly if a slot is wanted and none is free; a failure changes nothing but room |
| PolicyList.RegisterPlaces | xnu-8020.140.41/security/mac_base.c:689-736 | Otherwise the policy stands at the least free handle with the least free slot it wanted, and no other entry changes |
| PolicyList.RegisterCounts | xnu-8020.140.41/security/mac_base.c:714-743 | It becomes static before the boot ends, and after it exactly if it refuses to be unloaded and stands right behind the static policies; hint, highest index and count follow |
| PolicyList.HandleExists | xnu-8020.140.41/security/mac_base.c:714-721 | With fewer loaded than room, a free handle exists at or above the hint and it is the least free one |
| PolicyList.UnregisterInv | xnu-8020.140.41/security/mac_base.c:803-827 | Unregistration keeps the invariant if and only if the policy refuses to be unloaded, or its handle is dynamic and maxindex does not pass zero |
| PolicyList.UnregisterSays | xnu-8020.140.41/security/mac_base.c:803-828 | A policy that refuses stays and the result is 16; otherwise its handle and slot are free afterwards, nothing else changes hands, and hint, highest index and count follow |
| PolicyList.LostHandle | xnu-8020.140.41/security/mac_base.c:814-818 | Once a static policy has left, its handle is free but below the hint; the search then finds nothing on a list with room if and only if the list was full |
| PolicyList.FirstUnloadBreaks | xnu-8020.140.41/security/mac_base.c:814-822 | Loading and unloading any policy as the first of a list breaks the invariant, before the boot ends by a hole in the static part and after it by the wrap of maxindex |
| PolicyList.NextKeeps | xnu-8020.140.41/security/mac_base.c:606-848 | Every load, and every unload that meets the condition of UnregisterInv, keeps the invariant, and the static part only grows, after the boot over handles that were free |
| PolicyList.HistoryKeeps | xnu-8020.140.41/security/mac_base.c:606-848 | Every history from the initial list whose unloads meet that condition keeps the invariant in every state, whatever is loaded and whenever the boot ends |
| PolicyList.LateStatics | xnu-8020.140.41/security/mac_base.c:723-734 | In every history, from the end of the boot on, every policy that becomes static refuses to be unloaded and static policies stay |
| PolicyRegistry.MacPolicyList.constructor | xnu-8020.140.41/security/mac_base.c:333-352 | The constructed list is the initial one |
| PolicyRegistry.MacPolicyList.EnsureRoom | xnu-8020.140.41/security/mac_base.c:647-674 | A full array is replaced by one with a chunk of free entries more and the old entries in place |
| PolicyRegistry.MacPolicyList.NameLoaded | xnu-8020.140.41/security/mac_base.c:676-687 | The scan up to maxindex finds the name exactly if any entry has it |
| PolicyRegistry.MacPolicyList.FindSlot | xnu-8020.140.41/security/mac_base.c:689-698 | A policy that wants a slot gets the lowest free one, and fails exactly if none is free |
| PolicyRegistry.MacPolicyList.FindHandle | xnu-8020.140.41/security/mac_base.c:714-721 | The search from the hint finds the least free handle of the whole array |
| PolicyRegistry.MacPolicyList.Register | xnu-8020.140.41/security/mac_base.c:606-775 | The new list and outcome are those of registration at the least free handle and slot; a failure changes nothing but spare capacity |
| PolicyRegistry.MacPolicyList.Unregister | xnu-8020.140.41/security/mac_base.c:777-848 | A policy that refuses stays and nothing changes; otherwise its entry, counters, hint and slot are given back |
| PolicyWalk.Booted | xnu-8020.140.41/security/mac_base.c:364-378 | After the boot, with every thread idle, the system satisfies the invariant |
| PolicyWalk.StepKeeps | xnu-8020.140.41/security/mac_base.c:270-328 | Every step of every thread keeps: the busy count is the number of counted threads, the lock has one holder, an exclusive writer sees a count of 0, and a running hook's policy is loaded |
| PolicyWalk.Exclusion | xnu-8020.140.41/security/mac_base.c:228-328 | In every state of every run the count is the number of readers, the list changes only by an exclusive writer while there are none, an idle thread holds neither lock nor count, and no hook of an unloaded policy runs |
| PolicyWalk.MissedIffOvertaken | xnu-8020.140.41/security/mac_base.c:298-316 | The unlocked test ends a walk before a policy that stays loaded if and only if it reads numloaded first, the policy is dynamic then, and staticmax(first read) < numloaded read <= staticmax(second read) |
| PolicyWalk.VisitedOnce | xnu-8020.140.41/security/mac_internal.h:226-247 | Under any interleaving and either order of the unlocked reads, a policy loaded for the whole of a walk is visited by it exactly once if and only if the walk is not overtaken in that way, and otherwise not at all |
| PolicyWalk.OvertakenRun | xnu-8020.140.41/security/mac_base.c:303-305 | A run from a state that satisfies the invariant in which a registration falls between the two reads and a policy loaded throughout is not visited |
| MacCheck.SelectIsAssociative | xnu-8020.140.41/security/mac_base.c:854-891 | The selection is associative and takes the higher rank, the first argument on a tie |
| MacCheck.Check | xnu-8020.140.41/security/mac_internal.h:261-271 | The result is the highest-ranked among all hooks' results, and among errors without a name of their own the last |
| MacCheck.NamedFirst | xnu-8020.140.41/security/mac_base.c:854-886 | The first of 11, 22, 3, 2, 13 and 1 that any hook returns is the result of the check |
| MacCheck.UnnamedLast | xnu-8020.140.41/security/mac_base.c:886-891 | If none of them is returned, the result is the last error there is, or 0 |
| MacCheck.VerdictZero | xnu-8020.140.41/security/mac_internal.h:255-271 | The result is 0 exactly if every hook returns 0 |
| MacCheck.OrderIrrelevant | xnu-8020.140.41/security/mac_internal.h:255-271 | A named error or success does not depend on the order of the policies |
| MacCheck.Grant | xnu-8020.140.41/security/mac_internal.h:273-292 | The result is 0 exactly if some hook returns 0, and EPERM otherwise |
| MacCheck.RefusalHolds | xnu-8020.140.41/security/mac_internal.h:226-271 | In any run, if a policy loaded for the whole of a walk that is not overtaken returns an error, the check fails with an error of at least that rank |
| MacCheck.GrantHolds | xnu-8020.140.41/security/mac_internal.h:226-292 | In any run, if a policy loaded for the whole of a walk that is not overtaken returns 0, it is granted |
| MacCheck.OvertakenLoses | xnu-8020.140.41/security/mac_internal.h:226-292 | In an overtaken walk, whatever the policy answers, the answers of the others can make the check succeed and the grant fail |
| LabelText.Sbuf.Append | xnu-8020.140.41/bsd/kern/subr_sbuf.c:481-578 | All of the string is appended exactly if there was no overflow before and it fits; otherwise nothing, and the overflow is remembered |
| LabelText.CapacityIff | xnu-8020.140.41/bsd/kern/subr_sbuf.c:316-321 | The computed capacity is the room left if and only if the storage holds the text and a NUL; otherwise, and always with a length of 0, it is beyond any buffer |
| LabelText.Framework.ExternalizeOne | xnu-8020.140.41/security/mac_base.c:945-981 | A listener adds name/data and a comma, or nothing if it is absent or answers ENOENT; an error is its own, or -1 exactly if the buffer does not let it through; after a success the buffer has overflowed exactly if something did not fit |
| LabelText.Framework.LabelExternalize | xnu-8020.140.41/security/mac_base.c:908-999 | The consulted hooks are asked in order until one refuses or the buffer does not let it through; success exactly if none does and a required namespace has an entry, ENOENT exactly for a required namespace without one; the busy count is restored on every exit |
| LabelText.GoesAppend | xnu-8020.140.41/bsd/kern/subr_sbuf.c:481-578 | A buffer lets a list of calls through exactly if it lets the first part through and then, overflowed if something of that did not fit, the rest |
| LabelText.Framework.Externalize | xnu-8020.140.41/security/mac_base.c:1007-1065 | The text fits the output buffer; success if and only if every hook obliges, all calls but the last fit, the last fits or is taken back after its name did, and no required namespace is missing; the text is then the entries separated by commas, trimmed if everything fitted; every error has its reason; the busy count is restored on every exit |
| LabelText.Framework.LabelInternalize | xnu-8020.140.41/security/mac_base.c:1071-1125 | The result is the first objection in the order the policies are asked, ENOPOLICY if none is asked, and 0 otherwise; the busy count is restored on every exit |
| LabelText.Framework.Internalize | xnu-8020.140.41/security/mac_base.c:1127-1145 | The pairs are handed on in order up to the first malformed part or rejected pair, whose error is the result; 0 exactly if there is none |
| LabelText.SplitText | xnu-8020.140.41/security/mac_base.c:1054-1056 | Splitting the finished text at commas gives back the entries |
| LabelText.RoundTrip | xnu-8020.140.41/security/mac_base.c:1007-1145 | With plain names and data, the text mac_externalize makes of at least one entry has mac_internalize succeed and hand on exactly the emitted pairs, in order, if the policies accept each |
| LabelText.TextIsJoined | xnu-8020.140.41/security/mac_base.c:954-1056 | The text is name, slash and data of each pair with commas between them |
| LabelText.UntrimmedFails | xnu-8020.140.41/security/mac_base.c:1054-1145 | Text left untrimmed has mac_internalize hand on every emitted pair and then return EINVAL |
| LabelText.EmptyText | xnu-8020.140.41/security/mac_base.c:1134-1139 | Text without entries is empty and is not accepted |
| LabelNames.RequestCalls | xnu-8020.140.41/security/mac_base.c:920-945 | A request for a namespace, with or without question mark, calls the hooks of the elements of that name, with or without question mark, and prints the name without it |
| LabelNames.StarCalls | xnu-8020.140.41/security/mac_base.c:933-936 | A request for all namespaces calls the hooks of every element whose name has no question mark, and no others |
| LabelNames.PairListeners | xnu-8020.140.41/security/mac_base.c:1085-1091 | A pair is handed to the listeners of the elements of its name, with or without question mark |
| LabelNames.MissingIff | xnu-8020.140.41/security/mac_base.c:920-925 | A namespace asked for without question mark is missing exactly if its hooks leave no entry; with question mark, or asked for by the star, it never is |
| LabelNames.FirstErrorIs | xnu-8020.140.41/security/mac_base.c:1101-1106 | The error of a pair is that of the first policy that objects |
| LabelNames.Unheard | xnu-8020.140.41/security/mac_base.c:1121-1123 | A pair that no policy has a hook for is refused with 103 |
| LabelNames.OneList | xnu-8020.140.41/security/mac_base.c:983-988 | The dynamic namespaces are asked as if they followed the fixed ones in one list |
| MacLabel.RawEqualIffSame | xnu-8020.140.41/security/mac_process.c:117-121 | Raw slots of initialised labels are equal exactly if every slot reads the same |
| MacLabel.HistorySound | xnu-8020.140.41/security/mac_label.c:74-220 | Over every history of allocations, sets and frees on any set of variables in which no held label is freed by address, what a variable holds is a live label that refers back to it, and no two variables hold the same label |
| MacLabel.FreeIff | xnu-8020.140.41/security/mac_label.c:126-134 | Freeing a live label by address keeps that true if and only if no variable holds it |
| MacLabel.LabelZone.AllocOwned | xnu-8020.140.41/security/mac_label.c:74-124 | With or without an owner and whether or not there is storage: the label is live, reads 0 everywhere, and variable and label refer to each other; only an owner without storage fails |
| MacLabel.LabelZone.Verify | xnu-8020.140.41/security/mac_label.c:160-174 | Verification returns what the history says the variable holds and succeeds exactly if that is nothing or a live label that refers back; in a careful history it always succeeds |
| MacLabel.LabelZone.Free | xnu-8020.140.41/security/mac_label.c:126-134 | A label in the zone is freed, held or not, and nothing else changes; NULL and other addresses are refused |
| MacLabel.LabelZone.FreeOwned | xnu-8020.140.41/security/mac_label.c:136-150 | If verification succeeds, as it always does in a careful history, the variable is cleared and the label it held is freed, and nothing else changes |
| MacLabel.LabelZone.Get | xnu-8020.140.41/security/mac_label.c:191-198 | Reading a slot gives the value last set since the label was allocated, 0 for none |
| MacLabel.LabelZone.Set | xnu-8020.140.41/security/mac_label.c:208-220 | The value becomes the last one set, other slots and labels are unchanged, no raw 0 appears, and the sentinel value is refused |
| MacLabel.LabelZone.IsEqual | xnu-8020.140.41/security/mac_process.c:117-121 | Two labels compare equal exactly if the values last set agree in every slot |
| KextVersion.EncodeOrders | xnu-8020.140.41/libkern/OSKextVersion.c:388-394 | Encoded versions lie in 1000 to 10^16 and order and compare exactly as their five fields |
| KextVersion.ParseOrders | xnu-8020.140.41/libkern/OSKextVersion.c:188-395 | Every result is -1 or in that range, and the results of two accepted texts compare as the fields the texts denote |
| KextVersion.ScanEnds | xnu-8020.140.41/libkern/OSKextVersion.c:221-241 | Where a digit loop stops, at the first non-digit or at its limit, it has the number the grammar asks for |
| KextVersion.ParseStageLevel | xnu-8020.140.41/libkern/OSKextVersion.c:344-386 | The level loop, with its limit of digits and of value, accepts exactly the levels of the grammar |
| KextVersion.StageForString | xnu-8020.140.41/libkern/OSKextVersion.c:118-167 | The stage letter is recognised only before a digit, and the pointer moves past it |
| KextVersion.ParseReleaseState | xnu-8020.140.41/libkern/OSKextVersion.c:328-386 | From the label release_state on, stage and level are accepted exactly as the grammar says |
| KextVersion.ParseFromRevision | xnu-8020.140.41/libkern/OSKextVersion.c:293-326 | The revision loop and its test for too many digits agree with the grammar, including a period after four digits |
| KextVersion.ParseFromMinor | xnu-8020.140.41/libkern/OSKextVersion.c:254-291 | The minor loop agrees with the grammar, including the fall-through into the revision after exactly four digits |
| KextVersion.ParseFromMajor | xnu-8020.140.41/libkern/OSKextVersion.c:206-252 | The major loop agrees with the grammar, including the fall-through into the minor number after exactly four digits |
| KextVersion.ParseVersionString | xnu-8020.140.41/libkern/OSKextVersion.c:188-395 | The scanner returns the encoding of the version the text denotes, or -1 |
| KextVersion.ParseHead | xnu-8020.140.41/libkern/OSKextVersion.c:188-395 | The result depends only on the text before the first white space or NUL |
| KextText.WrittenParses | xnu-8020.140.41/libkern/OSKextVersion.c:188-395 | Every text of the written form, with missing numbers, leading zeros, a period after four digits of revision, and any of d, a, b, f, fc with its level, denotes exactly its numbers, stage and level |
| KextText.ParsesWritten | xnu-8020.140.41/libkern/OSKextVersion.c:188-395 | A text is accepted if and only if it can be written so |
| KextText.SpelledParses | xnu-8020.140.41/libkern/OSKextVersion.c:118-167 | One to three decimal numbers, then d, a, b, f or fc and a level, then an end, parse to their value with stage 1, 3, 5, 7 or 7 |
| KextText.ReleaseParses | xnu-8020.140.41/libkern/OSKextVersion.c:206-334 | One to three decimal numbers and an end parse to their value with stage 9 |
| KextVersion.Unpack | xnu-8020.140.41/libkern/OSKextVersion.c:432-452 | The divisions give fields in range that encode to the value |
| KextVersion.GetString | xnu-8020.140.41/libkern/OSKextVersion.c:400-490 | The buffer holds the printed form as a C string and is clear behind it, unless the placeholder was written over the numbers, whose rest then remains; without a large enough buffer it is untouched and the result is false |
| KextText.PrintedForm | xnu-8020.140.41/libkern/OSKextVersion.c:456-487 | A version prints as major and minor number, the revision unless 0, the one-letter stage and the level |
| KextText.PrintedRelease | xnu-8020.140.41/libkern/OSKextVersion.c:456-487 | A release prints without stage and level |
| KextText.PrintedWords | xnu-8020.140.41/libkern/OSKextVersion.c:421-437 | Only 0 prints as missing, and every negative or too large value as invalid |
| KextVersion.PrintThenParse | xnu-8020.140.41/libkern/OSKextVersion.c:188-490 | For every integer, parsing what is printed returns it, except that placeholders give -1, a release loses its level and a candidate of level 0 gives -1 |
| KextVersion.SurvivesIff | xnu-8020.140.41/libkern/OSKextVersion.c:188-490 | A value survives printing and parsing exactly if a text can denote it or it is -1 |
| KextVersion.ParsedSurvives | xnu-8020.140.41/libkern/OSKextVersion.c:188-490 | Every version the parser returns survives printing and parsing |
| KcData.IterSize | xnu-8020.140.41/libkdd/kcdata.h:1277-1311 | The unpadded size is never more than the stored size; except for arrays, containers and the two legacy kinds it is the stored size less the recorded padding, or 0 |
| KcData.FindType | xnu-8020.140.41/libkdd/kcdata.h:1449-1460 | The item found is the first of its type in the walk; none is found exactly if no item of the walk has the type |
| KcData.ArrayFits | xnu-8020.140.41/libkdd/kcdata.h:1382-1419 | In every valid array count times element size is at most the payload, and fills a padded array exactly |
| KcData.ElementInside | xnu-8020.140.41/libkdd/kcdata.h:1382-1419 | Every element of a valid array lies inside its item and the buffer |
| KcData.LayoutReads | xnu-8020.140.41/libkdd/kcdata.h:1446-1447 | Structs and arrays laid out with recorded padding are read back in order, each with its type, size and bytes, and the walk stops inside the buffer at the end marker |
| KcData.LegacyArrayReads | xnu-8020.140.41/libkdd/kcdata.h:1341-1419 | Arrays of the structures older kernels wrote, padded without a record of it, are valid and read back with the size of the structure |
| KcData.UnknownArray | xnu-8020.140.41/libkdd/kcdata.h:1396-1403 | A nonempty legacy array of any other kind is not valid |
| KcData.ContainerReads | xnu-8020.140.41/libkdd/kcdata.h:1282-1284 | No bit of a container's identifier is taken for padding |
| KcData.LegacyToldApart | xnu-8020.140.41/libkdd/kcdata.h:1267-1293 | A legacy thread snapshot or shared-cache item reads as the old structure, and a modern one of the same stored size as what was written |
| MachHeader.FirstSegment | xnu-8020.140.41/libkern/kernel_mach_header.c:284-298 | The first segment command in file order, or NULL |
| MachHeader.NextSegment | xnu-8020.140.41/libkern/kernel_mach_header.c:305-334 | The first segment command after the given one, or NULL |
| MachHeader.ListSegments | xnu-8020.140.41/libkern/kernel_mach_header.c:284-334 | Asking for the first segment and then for the next until NULL lists the segments of the header, each once and in file order |
| MachHeader.SegmentsAreAll | xnu-8020.140.41/libkern/kernel_mach_header.c:284-334 | That list is exactly the segment commands, at increasing addresses, none of them NULL |
| MachHeader.HeaderReads | xnu-8020.140.41/libkern/kernel_mach_header.c:284-334 | Whatever commands stand behind a 32-byte header, the segments listed are the commands of type 0x19 at the addresses where they stand |
| MachHeader.SectionsAre | xnu-8020.140.41/libkern/kernel_mach_header.c:367-393 | From the first section on, the section routines list exactly the nsects sections of 80 bytes behind the segment command of 72 bytes, and none if there is none |

## Left out

- The LZSS compressor's driver loop: it is not in the repository; the tree operations are proved for any caller that keeps the text under live nodes.
- LzssDecoder.Decompress: the returned count is not truncated to 32 bits.
- PolicyRegistry.MacPolicyList.Register: plist data, the init hooks, printing and label namespaces are not modelled, and a policy configuration is a value, so two policies sharing one slot variable are not covered.
- PolicyRegistry.MacPolicyList.Unregister: the handle must be loaded, as the source dereferences its entry; the registered flag, always set on a loaded entry, and the destroy hook are not modelled.
- PolicyWalk.VisitedOnce: says nothing about fairness, wake-ups or progress, and a registration is one step while its lock is held.
- Adding and removing label namespaces (`mac_policy_addto_labellist`, `mac_policy_removefrom_labellist`): the text functions work on given lists.
- LabelText.Framework.Externalize: the lists do not change during a call; the protocol for that is proved in PolicyWalk. On an error the text left in the buffer is unspecified. A caller's buffer of length 0 is excluded: the capacity then wraps (LabelText.CapacityIff) and there is no bound; `security/mac_base.c:896` keeps such a length out of the system calls.
- MacLabel.LabelZone.AllocOwned: an owner without storage, whose label the source writes through NULL, counts as a failure that changes nothing; the setup and tear-down callbacks are not modelled.
- Per-object MAC hooks: each is one use of a macro proved once.
- System calls, copying to and from user space, vnode lookup, the zone allocator and pointer authentication.
- Container nesting, descriptions and subtype descriptors of kcdata, and its compression: they add only short accessors.
- MachHeader.NextSegment: the segment must belong to the header, as in the source, which would otherwise read past the last command.
- Searches by name and getlastaddr in `kernel_mach_header.c`: they repeat the same walk with a test or a maximum.
