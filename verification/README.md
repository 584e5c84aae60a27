# Project MINK: verified model of the message codecs and the configuration engine

This project models, in Dafny, the parts of Project MINK whose correctness rests on state kept across many operations, and
proves what they promise.

* **The ASN.1 BER engine** (`Asn1*.dfy`, X.690 sections 8.1.2, 8.1.3 and 8.1.5). A message is a mutable tree of nodes whose
  cached lengths every edit pushes up to the root; `encode` trusts the caches and writes in one pass. The model keeps the
  classes, the fields and the loops. It proves that every edit leaves the caches consistent with the tree, that `encode`
  writes the recursively defined encoding of the linked tree, that both decoders read it back, and that the node pool, the
  session counter and the definition search give a receiver exactly the components that were sent, from the edited tree of
  the one to `has_linked_data` of the other.
* **The configuration transaction engine** (`Config*.dfy`). Commit, discard, load, merge, reset, validation and the file
  printer are proved on a heap of nodes against functions on values, and the laws of a transaction are proved about those
  functions: what a commit shows, what a discard restores after any run of commands, loads and pretended commits, exactly
  when such a step takes that away (`ConfigForgets`), what a load means, and that a saved file loads back to the
  configuration that was saved. `ConfigHistory` starts from a bare definition and shows that after any history of commands,
  loads, commits and discards a committed configuration meets what the load and save theorems ask.
* **A configuration update on a client** (`ConfigPaths`, `ConfigChanges`, `ConfigContents`, `ConfigUpdate`). The two-pass
  protocol is proved against a map from paths to nodes: what the tree holds afterwards, and how often each listed node is
  delivered.
* **Two smaller codecs**: the batched inserts of the database daemon (`PmDb`) and the M2UA parameter codec (`M2uaCodec`,
  section 3.1.6 of RFC 3331).

How to read it. `Asn1Node.Consistent` is the invariant of a message tree: every constructed node's length is the sum of what
its children count, a child that is not linked counts 0, and a linked CHOICE mirrors its one linked alternative.
`Asn1Encode.TreeOf` is the message a linked node stands for, `Asn1Ber.Encoding` its octets, and `Asn1Parse.Parse` what either
decoder finds in a buffer. Configuration trees are values of `ConfigTree.Node`; `Canon` is such a tree up to the order of the
instances of a template. `ConfigItem.ConfigItem` is the same tree as heap objects. Methods carry ghost parameters (`S`, `T`,
`D`, `ns`, `vs`) that name the set of nodes they work on.

Facts found on the way:

* `decode_tag` undoes `encode_prepared_tag` if and only if the tag number is at most 127: the encoder shifts by 8 bits from
  octet to octet, the decoder by 7 (`Asn1Ber.TagRoundTrip`).
* `find_eoc` looks for the end-of-contents octets only after an element, so it takes those of empty contents for an
  element. With a row of elements after them it comes to 0, which is right, if and only if that row runs to the end of the
  given data and is not closed by end-of-contents octets of its own (`Asn1Eoc.EmptyContentsIff`). A row with at most one
  empty indefinite form, at whatever depth, is measured right if and only if it has none (`Asn1Eoc.MeasuresIff`). With two
  or more the same forms can be measured right (`Asn1Eoc.TwoEmptiesFound`) or wrong (`Asn1Eoc.TwoEmptiesMissed`), by the
  octets around them: no condition on the forms alone decides it, and which octets do is left open.
* `M2UAMessage::encode` adds the sum so far to the offset, so parameters lie back to back if and only if there are at most
  two (`M2uaCodec.BackToBackIff`).
* A pretended commit clears the new marks, so a discard after it keeps what was never committed; it does so if and only if
  it reaches a new node (`ConfigForgets.PretendKeepsDiscardIff`). A load does the same if and only if the part of the file
  that merge gets to names an uncommitted instance (`ConfigForgets.LoadKeepsDiscardIff`).
* decode without a definition counts its elements afresh on every level, so it can use records again that are still in use.
  On an encoded forest it does so if and only if there are more elements than records and it is not refused before: that
  happens with 400, before any record is used again, if and only if the first so many elements are ones of the outermost
  level with nothing inside (`Asn1Plain.EncodedStays`). What it returns in the end takes no notice of the others: when no
  element holds as many elements as there are records, 400 if and only if there are more outermost elements than records,
  and 0 otherwise, used again or not (`Asn1Plain.ReturnsIff`).
* `show_config` skips an item whose pending value is empty, also when only what is committed is asked for, as the daemon does
  for the rollback file it saves before a commit. What it writes then is the committed configuration if and only if no item
  that holds a value was given the empty one (`ConfigFile.PrintShowsCommittedIff`, `ConfigFile.PrintMissesEmptied`).
* A command that creates an instance marks all it copies MODIFIED, nested templates too, and no commit or discard takes
  that mark away again (`ConfigHistory.MarksStay`). The theorems on loading and saving cover such trees.
* In the update protocol a listed node can be delivered twice: `ConfigUpdate.RunTwice` runs an update of two changes that
  does it. `ConfigChanges.DeliveryCount` gives both counts from the tree before the update and the list alone. The first
  pass delivers what was there with a handler. The second delivers what is there afterwards and is not the old node, if the
  nearest old node above gives it a handler: an addition, or a node that a listed deletion of a block at its path or above
  took away and a later change at its path or beneath made again.

## Model

| member | source | states |
|---|---|---|
| Asn1Octets.LengthSizeMinimal | src/asn1/asn1.cpp:1436-1453 | the prepared length field is the shortest that can hold the length |
| Asn1Octets.PrepareLength | src/asn1/asn1.cpp:1436-1453 | size and form of the length field follow from the length |
| Asn1Octets.EncodePreparedLength | src/asn1/asn1.cpp:1455-1472 | writes exactly the prepared length field in place and nothing else |
| Asn1Octets.LengthOctetsInNumbers | src/asn1/asn1.cpp:1455-1472 | the length octets written out in numbers for every length of an int: one octet up to 127, else 0x81 to 0x84 and the length, most significant octet first |
| Asn1Octets.PrepareTag | src/asn1/asn1.cpp:1364-1376 | size of the identifier follows from the tag number |
| Asn1Octets.TagSizeMinimal | src/asn1/asn1.cpp:1364-1376 | the prepared identifier of a tag number above 30 has the fewest septets that can hold it |
| Asn1Octets.TagSizes | src/asn1/asn1.cpp:1364-1376 | one octet up to 30, two below 128, three below 2^14, four below 2^21, five below 2^28, else six |
| Asn1Octets.EncodePreparedTag | src/asn1/asn1.cpp:1408-1432 | writes exactly the identifier octets in place and nothing else |
| Asn1Octets.IdentifierOctets | src/asn1/asn1.cpp:1408-1432 | the identifier octets in numbers, from class, constructed flag and tag number |
| Asn1Octets.ShiftedBy8Value | src/asn1/asn1.cpp:1408-1432 | the encoder's 8-bit steps read in 7-bit groups give the tag number back for numbers below 128, and less for all others |
| Asn1Ber.TagRoundTrip | src/asn1/asn1.cpp:1007-1041 | decode_tag undoes encode_prepared_tag if and only if the tag number is at most 127 |
| Asn1Ber.LengthRoundTrip | src/asn1/asn1.cpp:966-1005 | decode_length undoes encode_prepared_length for every length below 2^31, if and only if it is given all the octets; error 1 or 2 otherwise |
| Asn1Read.DecodeTag | src/asn1/asn1.cpp:1007-1041 | the in-place decoder computes the tag its specification reads, and stays inside the buffer whenever that does |
| Asn1Read.TagInNumbers | src/asn1/asn1.cpp:1007-1041 | what it reads, in numbers: class, constructed flag and number from the leading octet, greater numbers from the octets after it, and no tag if none of these ends |
| Asn1Read.DecodeLength | src/asn1/asn1.cpp:966-1005 | all three length forms, with the error returns and the fields they leave alone; its recursion with find_eoc terminates |
| Asn1Read.LengthInNumbers | src/asn1/asn1.cpp:966-1005 | what it reads in the definite forms, in numbers, and when it refuses |
| Asn1Read.FindEoc | src/asn1/asn1.cpp:937-965 | the search as specified, on any buffer |
| Asn1Eoc.FindsEoc | src/asn1/asn1.cpp:937-965 | on any non-empty row of well-formed elements, nested in definite or non-empty indefinite form, followed by 00 00, the search returns the length of the row |
| Asn1Eoc.EmptyContentsIff | src/asn1/asn1.cpp:937-965 | for empty contents with any row of legal elements without empty forms behind them, the exact result, and the right one if and only if the row ends the data and is not closed |
| Asn1Eoc.OneEmptyMissed | src/asn1/asn1.cpp:937-965 | a row with exactly one empty form, at any depth, is never measured right |
| Asn1Eoc.MeasuresIff | src/asn1/asn1.cpp:937-965 | a non-empty legal row with at most one empty form is measured if and only if it has none |
| Asn1Eoc.TwoEmptiesFound | src/asn1/asn1.cpp:937-965 | twenty octets with two empty forms that are measured right all the same |
| Asn1Eoc.TwoEmptiesMissed | src/asn1/asn1.cpp:937-965 | the same forms around two other octets, measured as 13 instead of 16 |
| Asn1Eoc.EmptyContentsMissed | src/asn1/asn1.cpp:937-965 | the simplest missed case: 00 00 00 00 comes to 2 |
| Asn1Node.ASN1Node.UpdateParents | src/asn1/asn1.cpp:174-219 | from a tree consistent but for this node's parent, pushing the change to the root makes every node consistent, links all parents, and touches nothing off the path to the root |
| Asn1Node.ASN1Node.SetLinkedValue | src/asn1/asn1.cpp:295-306 | giving a primitive node a value keeps the whole tree consistent and links the node and all above it |
| Asn1Node.ASN1Node.SetLinked | src/asn1/asn1.cpp:147-154 | linking a node back with what it holds keeps the tree consistent |
| Asn1Node.ASN1Node.Unlink | src/asn1/asn1.cpp:253-293 | unlinking keeps the tree consistent, keeps the node's own length, and leaves everything off the path to the root alone |
| Asn1Node.FreshConsistent | src/asn1/asn1.cpp:1557-1665 | a tree as prepare() leaves it, with nothing linked, is consistent: the start of every run of edits |
| Asn1Node.ContributionsChange | src/asn1/asn1.cpp:174-219 | when one child counts delta more, the children together count delta more |
| Asn1Encode.CachedSizes | src/asn1/asn1.cpp:174-219 | in every consistent tree the cached sizes of a linked node are those of the recursively recomputed message |
| Asn1Encode.MessageFields | src/asn1/asn1.cpp:1762-1773 | the message of a node from its own fields: universal class and type number if it has no tag of its own, its class and number otherwise, constructed as it says or by its children; nothing if not linked |
| Asn1Encode.WrittenInNumbers | src/asn1/asn1.cpp:1762-1800 | the leading octet of a linked node from its own fields, in numbers, and its whole message behind a short header |
| Asn1Encode.Encode | src/asn1/asn1.cpp:1754-1834 | writes exactly the encoding of the linked tree, returns its cached size, and leaves the message as it was |
| Asn1Encode.EncodeNode | src/asn1/asn1.cpp:1754-1800 | identifier, length and contents of a node that is no CHOICE: every length field equals the number of content octets that follow |
| Asn1Encode.EncodeChildren | src/asn1/asn1.cpp:1792-1800 | the encodings of the linked children, one after the other |
| Asn1Encode.TreeSettled | src/asn1/asn1.cpp:1762-1773 | replacing placeholder tags while encoding does not change the message |
| Asn1Pool.AheadDistinct | src/asn1/asn1.cpp:106-120 | from any ring position, as many requests as the pool has elements hand out every element exactly once |
| Asn1Pool.AheadTurns | src/asn1/asn1.cpp:106-120 | one request turns the ring by one |
| Asn1Pool.ASN1Pool.RequestTlv | src/asn1/asn1.cpp:114-121 | returns the record that is next in the ring and moves on |
| Asn1Pool.ASN1Pool.RequestAsn1Node | src/asn1/asn1.cpp:106-113 | returns the node that is next in the ring and moves on |
| Asn1Parse.ParseUndoesEncoding | src/asn1/asn1.cpp:1263-1330 | both decoders, on the encoding of any forest with tag numbers up to 127 and enough pool records, find exactly that forest |
| Asn1Parse.HeaderInNumbers | src/asn1/asn1.cpp:1096-1120 | one element with a one-octet tag in numbers: 300 if the data ends before or inside the length, 200 if the contents run past it, else the element with its contents |
| Asn1Parse.NextElement | src/asn1/asn1.cpp:1239-1248 | the loop goes on right after the contents in the short form, and two octets further in the indefinite form |
| Asn1Parse.ElementsTile | src/asn1/asn1.cpp:1087-1248 | whenever a decode of low-tag, definite-length elements succeeds, the elements tile the buffer and the children of each constructed one tile its value |
| Asn1Parse.ParseMade | src/asn1/asn1.cpp:1087-1098 | a decode that succeeds requested one record for each element it found, never more than the pool has |
| Asn1Parse.MarksPresent | src/asn1/asn1.cpp:1137-1232 | on a message of the same definition the ordered search matches exactly the components that are present, each with its own element |
| Asn1Decode.MatchComponent | src/asn1/asn1.cpp:1137-1232 | the search loop links the first component from the cursor on that answers to the tag, moves the cursor, and touches no other component |
| Asn1Decode.FirstAnswer | src/asn1/asn1.cpp:1137-1232 | from the fields of the definition: the element is matched with the first child from the cursor on whose class and number it has, those of a child without a tag of its own being universal and its type number; where the search goes on |
| Asn1Decode.DecodeLevel | src/asn1/asn1.cpp:1069-1253 | the loop on the heap returns what the specification returns; on success the forest hangs under root in order, in nodes and records of its own, and the definition carries exactly the marks |
| Asn1Decode.GrownThen | src/asn1/asn1.cpp:1087-1248 | what was decoded earlier on a level is intact after the next element |
| Asn1Plain.DecodePlain | src/asn1/asn1.cpp:1256-1330 | decode without a definition returns 0 exactly when the loop finishes, and then the forest hangs under root |
| Asn1Plain.EncodedRun | src/asn1/asn1.cpp:1263-1330 | on the encoding of any forest, from any point of a level, up to the first record used again: the forest, or 400, or a record used again, each exactly when |
| Asn1Plain.EncodedStays | src/asn1/asn1.cpp:1263-1330 | the pool comes round to records in use if and only if the forest has more elements than the pool and its first so many are not all bare ones of the outermost level |
| Asn1Plain.ReturnsIff | src/asn1/asn1.cpp:1256-1330 | the value returned, records used again or not, when no element holds as many elements as the pool has records: 400 if and only if there are more outermost elements than records, or else 0 |
| Asn1Plain.ReturnedAgrees | src/asn1/asn1.cpp:1263-1330 | up to the first record used again, the return value of that account is the one of the decoding loop |
| Asn1Plain.EncodeThenDecode | src/asn1/asn1.cpp:1754-1834 | a linked node encoded and then decoded without a definition comes back as exactly the encoded tree |
| Asn1Plain.PlainRoundTrip | src/asn1/asn1.cpp:1263-1330 | decoding what encode writes for a node succeeds and finds the images of the node's tree |
| Asn1Session.SessionId.GetNextId | src/asn1/asn1.cpp:16-25 | the new id is larger than any id in the definition, also when the 64-bit counter wraps |
| Asn1Session.SetSessionId | src/asn1/asn1.cpp:170-172 | sets the id in the whole tree below a node and nowhere else |
| Asn1Session.Decode | src/asn1/asn1.cpp:1044-1066 | the definition's root becomes the only component of a temporary parent; result and marks are those of the specification |
| Asn1Session.Receive | src/asn1/asn1.cpp:1044-1253 | after a decode with a fresh id, has_linked_data is true exactly for the components the message matched, each linked with the record of its element; nothing of an earlier session shows |
| Asn1Session.NothingShared | src/asn1/asn1.cpp:1087-1135 | no two elements of a decoded forest, at any depth, share a record or a tree node |
| Asn1Session.TreeIsMessage | src/asn1/asn1.cpp:1754-1834 | what encode writes for a tree is a message of its definition with exactly its linked components |
| Asn1Session.EncodedMarks | src/asn1/asn1.cpp:1069-1253 | decoding it with the same definition marks exactly the counterparts of the linked components that are reached through linked ones |
| Asn1Session.EncodeThenReceive | src/asn1/asn1.cpp:1044-1253 | a linked node encoded and received with a definition that mirrors it: success, has_linked_data exactly for the counterparts linked like everything above them, each record with the sender's header and octets |
| ConfigTransaction.CommitShowsPending | src/config/config.cpp:2237-2303 | a commit turns the pending view into the committed view and leaves nothing pending |
| ConfigTransaction.SecondCommitFindsNothing | src/config/config.cpp:2237-2303 | a second commit reports 0 and changes nothing |
| ConfigTransaction.PretendChangesNothing | src/config/config.cpp:2237-2303 | a pretended commit changes no value, state or structure, only the new marks |
| ConfigTransaction.PretendKeepsChanges | src/config/config.cpp:2237-2303 | after a pretended commit the real one still reports every change |
| ConfigTransaction.ChangesCounted | src/config/config.cpp:2237-2303 | the count is the number of paths commit reaches, past no template and beneath no deleted node, whose node is MODIFIED or DELETED |
| ConfigTransaction.NothingToCommit | src/config/config.cpp:2237-2303 | it is 0 if and only if there is no such path, and if and only if committing would do no more than pretending |
| ConfigTransaction.DiscardIsClean | src/config/config.cpp:2151-2208 | after a discard every node is READY and none is new |
| ConfigTransaction.DiscardShowsCommitted | src/config/config.cpp:2151-2208 | a discard shows what was committed before |
| ConfigTransaction.PrepareKeepsDiscard | src/config/config.cpp:2823-2857 | replace_prepare changes nothing that a discard restores |
| ConfigTransaction.ResetBlanks | src/config/config.cpp:2860-2886 | after a reset a list holds its template alone, and every node outside templates is empty and READY, at every depth, with all else as it was |
| ConfigItem.ConfigItem.Commit | src/config/config.cpp:2237-2303 | commit on the heap, erasing children while looping, does to the tree what its specification does to the value and returns its count, pretending or not |
| ConfigItem.ConfigItem.Discard | src/config/config.cpp:2151-2208 | discard on the heap refines its specification |
| ConfigItem.ConfigItem.ReplacePrepare | src/config/config.cpp:2823-2857 | replace_prepare on the heap refines its specification |
| ConfigItem.ConfigItem.Reset | src/config/config.cpp:2860-2886 | reset on the heap refines its specification |
| ConfigEngine.CopyNodes | src/config/config.cpp:2125-2148 | appends a deep copy of a node's children to another, sharing nothing |
| ConfigEngine.SortInstances | src/config/config.cpp:3071-3075 | the sort after an instance is added: reorders the instances as specified and leaves the template first |
| ConfigEngine.Merge | src/config/config.cpp:2959-3088 | merge on the heap, with its failures half-way, refines its specification |
| ConfigEngine.ValidateContents | src/config/config.cpp:2888-2956 | validate, with its throwaway copies of templates, refines its specification and changes nothing |
| ConfigEngine.ShowConfig | src/config/config.cpp:1003-1205 | the printer on the heap writes the tokens its specification prints |
| ConfigEngine.ShowSize | src/config/config.cpp:1003-1205 | the size pass that decides whether a block is printed |
| ConfigMerge.SortedPermutes | src/config/config.cpp:3071-3075 | sorting instances loses and adds none |
| ConfigMerge.SortedOrders | src/config/config.cpp:92-109 | when the comparison is a strict weak order on the instances, none comes before one that should precede it |
| ConfigMerge.SortedByNumber | src/config/config.cpp:92-109 | of two sorted instances that both have their sort item, the earlier one has no greater number there |
| ConfigMerge.SortedByName | src/config/config.cpp:92-109 | of two of which one has none, the later one has no lesser name |
| ConfigMerge.WithInstanceOrdered | src/config/config.cpp:3066-3077 | an added instance leaves the template first, goes to the end of a list marked empty, and to its place in any other |
| ConfigMerge.ValidateAsksSkeleton | src/config/config.cpp:2888-2956 | validate depends only on the part of a definition that no merge changes |
| ConfigMerge.ValidateMeans | src/config/config.cpp:2888-2956 | validate accepts contents if and only if every node in them is defined, every item as an item, and no item misses the pattern of its type |
| ConfigMerge.MergeSucceedsIff | src/config/config.cpp:2959-3088 | merge succeeds exactly when that part accepts the contents and every instance name fits its pattern, and keeps it |
| ConfigMerge.MergeMeans | src/config/config.cpp:2959-3088 | merge succeeds if and only if, besides, no instance has a name that misses the pattern of its template |
| ConfigMerge.MergeAgreesWithValidate | src/config/config.cpp:2888-3088 | merge and validate agree, up to the names of instances |
| ConfigSave.MergeOnReset | src/config/config.cpp:2860-3088 | on every reset definition merge(..., false) succeeds exactly when validate accepts the contents and every instance name fits its template's pattern |
| ConfigRollback.MergeKeepsDiscard | src/config/config.cpp:3021-3082 | a load, also one that fails half-way, leaves what a discard restores as it is |
| ConfigRollback.EditKeepsDiscard | src/config/config.cpp:2576-2601 | neither does an item set, a deletion or a new instance change it |
| ConfigRollback.EditShown | src/config/config.cpp:2237-2303 | what a commit shows after an edit: the value set, none for a deleted item, no deleted block, a block that is set again with all it holds, and everything else as without the edit |
| ConfigRollback.InstanceShown | src/config/config.cpp:2576-2601 | a created instance comes last, new and MODIFIED, a copy of its template with everything MODIFIED, and a commit shows it |
| ConfigRollback.DiscardRestores | src/config/config.cpp:2151-2208 | from a clean tree, after any run of commands, loads and pretended commits, discard gives the tree back up to the order of instances, every node READY |
| ConfigRollback.RunConforms | src/config/config.cpp:2823-3088 | any run of commands, loads (failed ones too) and pretended commits keeps the shape merge relies on, and the skeleton |
| ConfigForgets.PretendKeepsDiscardIff | src/config/config.cpp:2237-2303 | a pretended commit leaves what a discard restores, up to the order of instances, if and only if it reaches no new node |
| ConfigForgets.MergeKeepsDiscardIff | src/config/config.cpp:3021-3082 | a load that succeeds leaves it if and only if it names no uncommitted instance |
| ConfigForgets.LoadKeepsDiscardIff | src/config/config.cpp:3021-3082 | any load, also one that stops half-way, leaves it if and only if the part merge gets to names no uncommitted instance |
| ConfigForgets.PretendForgets | src/config/config.cpp:2237-2303 | a tree of one uncommitted instance that a pretended commit keeps from being discarded |
| ConfigForgets.LoadForgets | src/config/config.cpp:3021-3082 | the same tree and a file that names the instance |
| ConfigLoad.MergeFixed | src/config/config.cpp:2959-3012 | in a block of named children a successful merge changes each mentioned child on its own |
| ConfigLoad.MergeListed | src/config/config.cpp:3013-3082 | in a list it changes each mentioned instance on its own and adds the others the file names |
| ConfigLoad.OverlayMeaning | src/config/config.cpp:3021-3082 | inside an instance, kept or made from the template, merge and commit lay the file over what a commit leaves of what is there: mentioned items change, the rest stays |
| ConfigLoad.LoadMeaning | src/config/config.cpp:2823-2857 | load and commit on a clean tree: items outside instances take their file value or become empty, instances not in the file go, kept ones have the file laid over them, others are made from the template |
| ConfigLoad.LoadedItem | src/config/config.cpp:2959-3012 | in that meaning an item outside lists has the value the file gives it, or none; inside an instance the items the file names have theirs and the others keep what they had |
| ConfigLoad.LoadedNames | src/config/config.cpp:3013-3082 | the instances of a list outside instances are those the file names, each with its name; inside an instance they are those and the old ones |
| ConfigHistory.HistoryGrows | src/config/config.cpp:2151-2303 | commands that the handlers let through, arbitrary loads, pretended and real commits and discards keep a tree one that has grown from its definition |
| ConfigHistory.SoundAfter | src/config/config.cpp:2115-2148 | after any such history from a bare definition, once nothing is pending, the configuration meets the hypotheses of LoadMeaning and SaveThenLoad: values and names that fit, instances shaped like their template, unique names |
| ConfigHistory.CleanAfter | src/config/config.cpp:2151-2303 | which a commit or a discard at the end of the history brings about |
| ConfigHistory.LoadedAfterHistory | src/config/config.cpp:2823-2857 | so the next load of any file means what LoadMeaning says |
| ConfigHistory.SavedAfterHistory | src/config/config.cpp:1003-1205 | and what is printed parses, and merges into the bare definition, to the same values and instances, but for instances with nothing to print |
| ConfigHistory.MarksStay | src/config/config.cpp:2576-2601 | a created and committed instance with a nested template that stays MODIFIED |
| ConfigFile.PrintIsFile | src/config/config.cpp:1003-1205 | the printer, with its separate size pass, writes exactly the tokens of the contents a clean configuration holds |
| ConfigFile.PrintShowsPending | src/config/config.cpp:1003-1205 | printing with what is not committed writes the file of what a commit would leave, whatever is pending |
| ConfigFile.PrintShowsCommittedIff | src/config/config.cpp:1003-1205 | printing without it writes the file of what a discard would leave if and only if no item was given the empty value |
| ConfigFile.PrintMissesEmptied | src/config/config.cpp:1137-1146 | an item that holds a value and was given the empty one, missing from the print |
| ConfigFile.ParseUndoesPrint | src/config/pminkParser.c:910-1081 | parsing the tokens of any contents gives the contents back |
| ConfigFile.Parser.ConfigDefs | src/config/pminkParser.c:910-1081 | the loop over definitions consumes exactly what the grammar specification consumes and builds the same tree |
| ConfigFile.Parser.ConfigDef | src/config/pminkParser.c:1937-2070 | a definition is a block or else an item |
| ConfigFile.Parser.ConfigBlock | src/config/pminkParser.c:2076-3006 | the inside of a block and its closing brace |
| ConfigSave.ResetConforms | src/config/config.cpp:2860-2886 | a reset definition has the shape merge relies on |
| ConfigSave.SaveThenMerge | src/config/config.cpp:2860-3088 | reset and merge of the printed contents succeed and give values and instances back, except instances with nothing to print |
| ConfigSave.SaveThenLoad | src/config/config.cpp:1003-1205 | printing, parsing the tokens, reset and merge: the same, end to end |
| ConfigPaths.SetAt | src/config/config.cpp:240-305 | changing the node found by a path changes no other path |
| ConfigPaths.EraseAt | src/config/config_r14p.cpp:206-226 | erasing it takes its path and all longer ones, and no other |
| ConfigPaths.CreateAt | src/config/config.cpp:240-305 | the creating search leaves every node there is alone, and adds just the missing ones on the way, with the handler of the last node found |
| ConfigUpdate.CreateNodes | src/config/config.cpp:240-305 | the creating search in the tree is the creation of a path in the map from paths to nodes |
| ConfigChanges.MadeFrom | src/config/config.cpp:240-305 | a node made on the way is new, READY and empty, with the handler and the empty mark of the nearest node there is above it, or of the root |
| ConfigUpdate.CfgUpdateStreamDone.GroupByHandler | src/config/config_r14p.cpp:129-159 | the loop gives the listed nodes the values and states of their changes (`ConfigChanges.DeliveredAsListed`) and groups those not executed before by handler, in list order |
| ConfigUpdate.CfgUpdateStreamDone.ProcessCfgEvents | src/config/config_r14p.cpp:120-184 | a pass runs each handler with a group exactly once, with that group as the list has it, no other handler, and turns the flags of what it delivered |
| ConfigUpdate.CfgUpdateStreamDone.ApplyChanges | src/config/config_r14p.cpp:199-238 | the apply loop refines the changes applied in order to a map from paths to nodes |
| ConfigUpdate.CfgUpdateStreamDone.Run | src/config/config_r14p.cpp:187-269 | the whole update: what each pass delivered, the contents afterwards, and exactly-once delivery; no flag is left set |
| ConfigChanges.PassDelivers | src/config/config_r14p.cpp:120-184 | over one pass a node that is due is delivered once for each time it is listed, any other node not at all |
| ConfigChanges.DeliveredAsListed | src/config/config_r14p.cpp:137-145 | a handler sees a node in the state of the last change listed for it and with its value, or with none for a deleted item, and otherwise as it was before the pass |
| ConfigChanges.ListedInOrder | src/config/config_r14p.cpp:146-159 | it is given exactly the listed nodes that have it and were not executed before, in list order |
| ConfigChanges.SecondAsListed | src/config/config_r14p.cpp:187-269 | in the second pass too the state and the value are those of the received list |
| ConfigChanges.NotErasedStays | src/config/config_r14p.cpp:199-238 | a node that no change erases keeps its type, its handler and its flag |
| ConfigChanges.AfterTheList | src/config/config_r14p.cpp:199-238 | whether a path is there after the list, and with which handler, read off the old tree and the order of the list |
| ConfigChanges.StillThereIff | src/config/config_r14p.cpp:199-238 | an old node is still there if and only if no listed deletion names an old block at its path or above it |
| ConfigChanges.DeliveryAccount | src/config/config_r14p.cpp:187-269 | for distinct paths, the number of deliveries of every listed path in either pass, by what is there before and after the changes |
| ConfigChanges.DeliveryCount | src/config/config_r14p.cpp:187-269 | the same from the old tree and the list alone |
| ConfigUpdate.DeliveredTwice | src/config/config_r14p.cpp:187-269 | on a tree of two nested blocks, a deletion of the inner one followed by an item beneath it: both passes deliver it |
| ConfigUpdate.RunTwice | src/config/config_r14p.cpp:187-269 | the update itself run on that tree |
| ConfigChanges.ExactlyOnce | src/config/config_r14p.cpp:187-269 | with nothing listed beneath a deletion, every listed node that has a handler before or after the changes is delivered exactly once, and no other node |
| ConfigContents.AppliedWrites | src/config/config_r14p.cpp:199-238 | on contents the apply loop sets values, empties deleted items and drops the subtrees of deleted blocks, in list order |
| ConfigContents.UpdateWrites | src/config/config_r14p.cpp:187-269 | after a whole update the contents are the old ones with the changes written in list order, for every list |
| ConfigContents.UpdateClears | src/config/config_r14p.cpp:240-254 | afterwards no node is marked executed and every listed node that is there is READY and not new |
| PmDb.BoundAt | src/db/pmdb.cpp:88-221 | placeholder by placeholder, the value bound is the one the column has for the row's component |
| PmDb.SharedColumns | src/db/pmdb.cpp:71-352 | a column that is in both tables gets the same cell in both inserts |
| PmDb.TextColumns | src/db/pmdb.cpp:88-505 | by column name, which parameter a text column takes, and null without it |
| PmDb.NumberColumns | src/db/pmdb.cpp:88-505 | the same for numbers and transaction ids |
| PmDb.OtherColumns | src/db/pmdb.cpp:312-505 | the same for direction, size, status, text, time and the unused columns |
| PmDb.RowsMade | src/db/pmdb.cpp:106-321 | the rows are the counted components that are invokes of operation 45, or of 44 or 46 with a TP-MTI |
| PmDb.EachOnce | src/db/pmdb.cpp:312-505 | the indices bound are 1, 2, 3 and so on, each once |
| PmDb.CombinedRecordProcessor.ProcessSms | src/db/pmdb.cpp:242-541 | fills exactly the rows that were counted: 34 placeholders a row, each bound once |
| PmDb.CombinedRecordProcessor.ProcessSri | src/db/pmdb.cpp:62-240 | fills exactly the rows that were counted: 15 placeholders a row, each bound once |
| PmDb.CombinedRecordProcessor.Run | src/db/pmdb.cpp:544-596 | the two component counts are the numbers of rows the two inserts fill, for every list of records |
| M2uaCodec.FieldRoundTrip | src/m2ua/m2ua.cpp:967-983 | a 16-bit header field is read back, through signed chars, if and only if it is below 2^15 |
| M2uaCodec.EncodeParameter | src/m2ua/m2ua.cpp:996-1023 | header, value and zero padding to a multiple of four; 0 when the padded parameter does not fit |
| M2uaCodec.OctetsInNumbers | src/m2ua/m2ua.cpp:24-42 | the octets of a parameter in numbers: tag and length high octet first, value, and zeros to a multiple of four |
| M2uaCodec.M2UAMessage.ProcessParams | src/m2ua/m2ua.cpp:967-994 | the reading loop appends exactly the parameters that are in the data |
| M2uaCodec.TagsKept | src/m2ua/m2ua.cpp:1026-1060 | the tags a reader keeps, one by one; all others are passed over |
| M2uaCodec.ReadUndoesWrite | src/m2ua/m2ua.cpp:967-1023 | reading any number of back-to-back parameters gives them back, those of unknown tags left out |
| M2uaCodec.RoundTrip | src/m2ua/m2ua.cpp:967-1023 | for known tags and encoded lengths below 2^15 the list comes back whole |
| M2uaCodec.BackToBackIff | src/m2ua/m2ua.cpp:591-603 | a message puts its parameters back to back if and only if there are at most two |
| M2uaCodec.StartIs | src/m2ua/m2ua.cpp:591-603 | parameters never overlap, and parameter n lies in its back-to-back place exactly for n below 2 |
| M2uaCodec.M2UAMessage.Encode | src/m2ua/m2ua.cpp:591-603 | every parameter lies whole at its start, the result is the sum of the padded sizes, and up to two parameters can be read back from the buffer |

## Left out

ASN.1 engine:

- Asn1Node.ASN1Node.UpdateParents: lengths are mathematical integers; the wrap of the unsigned field after `unlink` is the negative number it stands for.
- Asn1Octets.EncodePreparedTag: tag numbers of 2^28 and more, for which the source shifts a 32-bit value by 32 bits or more.
- Asn1Octets.EncodePreparedLength: lengths of 2^31 and more.
- Asn1Node.ASN1Node.Unlink: not for an alternative of a CHOICE, which the source leaves to the unlinking of the CHOICE itself; alternatives have one-octet tags.
- Asn1Encode.Encode: the buffer is large enough; the source passes a buffer length on and does not check it. `override_auto_complexity` and a `linked_node` other than the node itself do not occur.
- Asn1Read.DecodeTag: buffers and positions inside the given memory; where the source would read outside, the model says so (`TagOutside`, `LeftModel`) and promises nothing more.
- Asn1Session.Receive: definitions without ANY, EXTERNAL, CHOICE and unlimited components; messages of the same definition for the claim about marks. What the search does past the last component (it keeps the last match) is modelled, and no claim is made for it.
- Asn1Session.Decode: a definition whose root is a CHOICE, for which the source enters the CHOICE itself as parent.
- Asn1Decode.MatchComponent: components of type CHOICE and ANY, which answer to other tags than their own, and unlimited ones, which the source multiplies on the way.
- Asn1Decode.DecodeLevel: the same definitions as Asn1Decode.MatchComponent.
- Asn1Node.ASN1Node.SetLinked: not for a CHOICE, which gets its contents through its alternative.
- Asn1Eoc.FindsEoc: rows in which every element has a length form X.690 allows; what the search makes of other octets is not stated.
- Asn1Eoc.MeasuresIff: rows with two or more empty forms.
- Asn1Plain.DecodePlain: runs in which the pool comes round to records still in use; `Asn1Plain.EncodedStays` says which encodings lead to one, and what the tree then looks like is not modelled.
- Asn1Plain.ReturnsIff: forests in which an element holds as many elements as the pool has records: its own record is used again while it is open, and where the loop goes on depends on the octets.
- Octets are copied where the source keeps pointers into the buffer.
- `prepare()` itself is taken as done; a tree as it leaves it is the starting point. `log2` and `ceil` are integer bit counts.
- The memory-switching form of `encode`, `combine`, deep transfer, time conversion, `prepare_int` and `decode_int`.

Configuration engine:

- ConfigEngine.SortInstances: `std::sort` leaves the order of instances that compare equal open; the model picks one, and the laws hold up to the order of instances. The walk of `sort()` over all blocks is not there.
- ConfigEngine.Merge: definitions whose instances have the shape of their template, as every reset definition and every copy has; `ConfigRollback.RunConforms` shows that commands and loads keep it.
- ConfigEngine.ValidateContents: the same definitions as ConfigEngine.Merge.
- ConfigRollback.DiscardRestores: loads that name an uncommitted instance and pretended commits that reach a new node, where it does not hold (`ConfigForgets`).
- ConfigLoad.LoadMeaning: sibling names are unique in the tree and in the file, and templates hold nothing pending beyond the MODIFIED marks of a creating command.
- ConfigHistory.SoundAfter: definitions whose items have values that fit their types and names that are no numbers, and commands under names that are not taken, as the handlers see to.
- ConfigFile.Parser.ConfigDef: the prediction automaton that chooses between block and item; trying a block first makes the same choice on contents.
- ConfigFile.Parser.ConfigBlock: the stars and the bracketed daemon of a typed definition block; contents have none. Prediction tables and error recovery are replaced by trying a block first.
- ConfigSave.SaveThenLoad: tokens only; the lexer is not part of this model, and quotes are taken as stripped. Blocks marked empty hold no items, and item names are no numbers.
- ConfigFile.PrintIsFile: clean configurations; for the others see `ConfigFile.PrintShowsPending` and `ConfigFile.PrintShowsCommittedIff`.
- ConfigFile.PrintShowsPending: blocks marked empty hold no items; the printer would put their braces behind what they hold.
- ConfigFile.PrintShowsCommittedIff: the same blocks as ConfigFile.PrintShowsPending.
- Patterns, the comparison of names and the numeric value of sort items are uninterpreted functions (`Rules`).
- `auto_complete` is represented by the state changes it and the command handlers make; values of PARAM nodes, completion and help are left out.

Update protocol:

- ConfigUpdate.CfgUpdateStreamDone.Run: the tree is a value that the methods reassign, and groups hold paths where the source holds pointers to nodes; that a node is freed is not modelled beyond its paths going away. Handlers do not change the tree. They run in any order, as the source orders them by address.
- ConfigPaths.CreateAt: the parent token and the limit of 50 tokens in a path.
- Sessions, streams, semaphores and the final user handler.

Smaller codecs:

- PmDb.CombinedRecordProcessor.Run: one clock reading for a batch; the database's own exceptions. A parameter read without an index is the one with index 0.
- M2uaCodec.M2UAMessage.ProcessParams: data in which a header or a value reaches past the end, or a length is below 4, where the source reads outside the buffer or does not advance.
- M2uaCodec.M2UAMessage.Encode: the buffer has room for every parameter at its place. Parameters with fields of their own are taken with the value octets they write.
- The M2UA packet header, MTP codecs, SQL text beyond the number of placeholders, and `SMSRecordProcessor`.

Nothing here was executed.
