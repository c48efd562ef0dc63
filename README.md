# HAM timeline core in Dafny

HAM is a Unity toolkit for branching dialogue ("visual novel") timelines. A timeline is a graph of
nodes keyed by int ids: dialog nodes (a line spoken by a character in a scene, with the cast on
stage), branch nodes (predicates over timeline variables, first true one wins, else a default),
decision nodes (player choices, each guarded by predicates) and consequence nodes (operations that
update variables). Every node keeps its parents (`PreviousNodeIDs`) as well as its descendant
slots. This project models:

- the byte serializer (`DataPacker`/`DataUnpacker`): ints, bools, bytes, byte arrays and strings,
  and the round trips of each layout;
- predicates and operations (`HamPredicate`, `HamOperation`): setting their variable, labels,
  evaluation, and their wire format;
- the four node kinds (`HamTimelineNode` and subclasses): descendant slots (`SetDescendant`,
  `GetDescendant`, `GetFreeDescendantSlot`, `GetIndexOfDescendant`, `GetDescendantIDs`), adding
  predicates, decisions and operations, and the node wire format with its type byte;
- the timeline (`HamTimeline`, the class `Timelines.Timeline`): id allocation with `IDCount`,
  default initialisation, `LinkNodes`, `CanLinkCleanly`, `DeleteNode`, `CanRemoveCleanly`,
  `DeleteTree`, `CanDeleteTree`, `GetLastDialogNode`, the sanity check, predicate evaluation, and
  the whole-timeline Pack/Unpack format;
- the playback instance (`HamTimelineInstance`, the class `Instances.TimelineInstance`):
  variable initialisation, `DetermineNextNode`, `ProcessCurrentNode`, `Advance`, the events it
  raises (`HamTimelineEvent` and subclasses), and its save format;
- the editor's node placer (`HamNodePlacer`, the class `NodePlacement.NodePlacer`): breadth-first
  discovery of PlacementNodes below the origin with optional re-parenting, the width pass and
  the offset pass that lay every node out at (WidthOffset, Depth).

Graph editing and playback are proved against value-level functions (`Graphs`, `TreeDeletion`,
`Playback`); the classes' methods run the source's loops and are tied to those functions by
their postconditions. A C# throw is modelled as `Outcome.Threw(state)`, carrying the state the
throw leaves behind, so a half-finished edit is described too. Parsers return `Option` and every
layout has a round-trip lemma.

Source paths below are relative to the repository root. Foreign parts are parameters: the
variable-value codec (`ValueCodec`), the text encoding (`TextCodec`), the comparison of two
variable values (`Comparer`), the execution of an operation (`Executor`), and the dictionary
enumeration order (`Enumeration` and `order` sequences).

## Model

| member | source | states |
|---|---|---|
| Serializer.Int32Bytes | Assets/Addons/HAM/Scripts/Util/Serializer.cs:66-69 | An int is written as exactly 4 bytes (BitConverter's little-endian two's complement); Int32BytesRoundTrip shows the 4 bytes determine the int again. |
| Serializer.Int32BytesRoundTrip | Assets/Addons/HAM/Scripts/Util/Serializer.cs:66-69 | Reading back the 4 bytes of any int32 gives that int32: the layout loses nothing, negative values included. |
| Serializer.BoolBytes | Assets/Addons/HAM/Scripts/Util/Serializer.cs:62-65 | A bool is written as exactly one byte. |
| Serializer.LengthPrefixed | Assets/Addons/HAM/Scripts/Util/Serializer.cs:74-81 | A byte array is written as its 4-byte length followed by the array itself, byte for byte; an empty array is just the length. |
| Serializer.ParseBool | Assets/Addons/HAM/Scripts/Util/Serializer.cs:100-104 | Reading a bool succeeds exactly when a byte is left; the value is true iff that byte is non-zero, and exactly one byte is consumed. |
| Serializer.ParseBytes | Assets/Addons/HAM/Scripts/Util/Serializer.cs:115-130 | A successful byte-array read consumes exactly 4 + size bytes. |
| Serializer.ParseMany | Assets/Addons/HAM/Scripts/Util/Serializer.cs:115-130 | Reading a count-driven run of items yields exactly that many items. |
| Serializer.ParseIntRoundTrip | Assets/Addons/HAM/Scripts/Util/Serializer.cs:105-109 | Unpacking an int right after packing it returns that int and leaves whatever followed untouched. |
| Serializer.ParseByteRoundTrip | Assets/Addons/HAM/Scripts/Util/Serializer.cs:95-99 | Unpacking a byte returns the packed byte and leaves the rest. |
| Serializer.ParseBoolRoundTrip | Assets/Addons/HAM/Scripts/Util/Serializer.cs:100-104 | Unpacking a packed bool returns it and leaves the rest. |
| Serializer.ParseBytesRoundTrip | Assets/Addons/HAM/Scripts/Util/Serializer.cs:115-130 | Unpacking a packed byte array (empty or not) returns the same array and leaves the rest. |
| Serializer.ParseTextRoundTrip | Assets/Addons/HAM/Scripts/Util/Serializer.cs:29-35 | A string packed through the string wrapper unpacks to the same string, given an encoding that decodes what it encodes. |
| Serializer.ParseManyRoundTrip | Assets/Addons/HAM/Scripts/Util/Serializer.cs:115-130 | A run of items, each of which round-trips, reads back as the same run. |
| Serializer.ParseListRoundTrip | Assets/Addons/HAM/Scripts/Util/Serializer.cs:115-130 | A count-prefixed list, each of whose items round-trips, reads back as the same list. |
| Serializer.Packer.constructor | Assets/Addons/HAM/Scripts/Util/Serializer.cs:48-51 | A new packer's buffer is empty. |
| Serializer.Packer.GetBytes | Assets/Addons/HAM/Scripts/Util/Serializer.cs:53-56 | GetBytes returns every byte appended so far, in append order. |
| Serializer.Packer.PackByte | Assets/Addons/HAM/Scripts/Util/Serializer.cs:58-61 | Packing a byte appends that one byte to the buffer. |
| Serializer.Packer.PackBool | Assets/Addons/HAM/Scripts/Util/Serializer.cs:62-65 | Packing a bool appends its one-byte layout. |
| Serializer.Packer.PackInt | Assets/Addons/HAM/Scripts/Util/Serializer.cs:66-69 | Packing an int appends its 4-byte layout. |
| Serializer.Packer.PackBytes | Assets/Addons/HAM/Scripts/Util/Serializer.cs:74-81 | Packing a byte array appends the length prefix and then the array. |
| Serializer.Packer.PackText | Assets/Addons/HAM/Scripts/Util/Serializer.cs:13-16 | Packing a string appends the byte array of its encoding. |
| Serializer.Unpacker.constructor | Assets/Addons/HAM/Scripts/Util/Serializer.cs:89-93 | A new unpacker reads the given buffer from offset 0. |
| Serializer.Unpacker.UnpackByte | Assets/Addons/HAM/Scripts/Util/Serializer.cs:95-99 | Unpacking a byte yields the byte at the offset and advances by 1; with no byte left it fails (IndexOutOfRange). |
| Serializer.Unpacker.UnpackBool | Assets/Addons/HAM/Scripts/Util/Serializer.cs:100-104 | Unpacking a bool yields whether the byte is non-zero and advances by 1, or fails when the buffer is exhausted. |
| Serializer.Unpacker.UnpackInt | Assets/Addons/HAM/Scripts/Util/Serializer.cs:105-109 | Unpacking an int reads 4 bytes and advances by 4, or fails when fewer than 4 remain. |
| Serializer.Unpacker.UnpackBytes | Assets/Addons/HAM/Scripts/Util/Serializer.cs:115-130 | Unpacking a byte array reads the size and then that many bytes, advancing by 4 + size; when the size is read but the bytes are missing, the offset is left 4 bytes further on, as the C# code leaves it. |
| Serializer.Unpacker.UnpackText | Assets/Addons/HAM/Scripts/Util/Serializer.cs:29-35 | Unpacking a string reads a byte array and decodes it. |
| Values.PackValue | Assets/Addons/HAM/Scripts/HamTimelineInstance.cs:13 | A variable value is written by its own codec, appended to the buffer. |
| Values.UnpackValue | Assets/Addons/HAM/Scripts/HamTimelineInstance.cs:39-40 | A variable value is read by its own codec, consuming the bytes its encoding takes. |
| Values.ParseVariableRoundTrip | Assets/Addons/HAM/Scripts/Timeline/HamTimeline.cs:34-38 | A timeline variable (id, value, name) written into the variables section reads back unchanged. |
| Lists.RemoveFirst | Assets/Addons/HAM/Scripts/Timeline/HamTimeline.cs:245 | List.Remove(x) takes out one occurrence of x (the multiset loses exactly one x) and leaves a list without x as it was. |
| Lists.RemoveFirstNoDup | Assets/Addons/HAM/Scripts/Timeline/HamTimeline.cs:245 | Removing from a duplicate-free list keeps it duplicate-free and removes exactly x. |
| Lists.Push | Assets/Addons/HAM/Scripts/Timeline/HamTimelineNode.cs:217-222 | List.Add succeeds while the list is below int.MaxValue items and then appends the item at the end. |
| Predicates.NewPredicate | Assets/Scripts/Timeline/HamPredicate.cs:41-45 | A new predicate has VariableID and NextNodeID InvalidID and no CompareValue. |
| Predicates.SetVariable | Assets/Scripts/Timeline/HamPredicate.cs:47-58 | SetVariable(InvalidID) clears CompareValue; any other id copies that timeline variable's value and fails when the id is not a variable (KeyNotFound); both set VariableID and keep the comparison and next node. |
| Predicates.Evaluate | Assets/Scripts/Timeline/HamPredicate.cs:70-78 | A predicate without a variable is false; otherwise it compares the timeline variable with CompareValue, and fails on a missing variable or a missing CompareValue. |
| Predicates.Label | Assets/Scripts/Timeline/HamPredicate.cs:60-68 | "No Comparison" without a variable; otherwise the variable's name, the comparison and the value's label, separated by spaces. A set VariableID the timeline lacks fails (KeyNotFound), and so does a set VariableID with no CompareValue (NullReference). |
| Predicates.ParsePredicate | Assets/Scripts/Timeline/HamPredicate.cs:18-34 | A predicate read from bytes has a CompareValue exactly when its VariableID is set. |
| Predicates.ParsePredicateRoundTrip | Assets/Scripts/Timeline/HamPredicate.cs:7-34 | Unpacking a packed predicate restores VariableID, Comparison, CompareValue and NextNodeID, and leaves the rest. |
| Predicates.PackPredicate | Assets/Scripts/Timeline/HamPredicate.cs:7-16 | Pack appends VariableID, the comparison byte, CompareValue only when VariableID is set, and NextNodeID. |
| Predicates.UnpackPredicate | Assets/Scripts/Timeline/HamPredicate.cs:18-34 | Unpack reads the fields in the order Pack writes them. |
| Operations.NewOperation | Assets/Scripts/Timeline/HamOperation.cs:34-39 | A new operation has VariableID InvalidID, operator Set and no operand. |
| Operations.SetVariable | Assets/Scripts/Timeline/HamOperation.cs:41-52 | SetVariable(InvalidID) clears the operand; any other id copies that timeline variable's value and fails when it is missing; both set VariableID and keep the operator. |
| Operations.Label | Assets/Scripts/Timeline/HamOperation.cs:54-62 | "No Operation" without a variable; otherwise operator, variable name and operand label; a missing variable fails, and so does a set VariableID with no Operand (NullReference). |
| Operations.ParseOperationInto | Assets/Scripts/Timeline/HamOperation.cs:17-28 | Unpacking an operation without a variable leaves the operand that was there before. |
| Operations.ParseOperation | Assets/Scripts/Timeline/HamOperation.cs:17-28 | An operation read into a fresh object has an operand exactly when its VariableID is set. |
| Operations.ParseOperationIntoRoundTrip | Assets/Scripts/Timeline/HamOperation.cs:7-28 | Unpacking a packed operation into an existing object restores every field, except that with no variable the object's previous operand is kept. |
| Operations.ParseOperationRoundTrip | Assets/Scripts/Timeline/HamOperation.cs:7-28 | Unpacking a packed operation into a new object restores it exactly. |
| Operations.PackOperation | Assets/Scripts/Timeline/HamOperation.cs:7-15 | Pack appends VariableID, the operator byte, and the operand only when VariableID is set. |
| Operations.UnpackOperation | Assets/Scripts/Timeline/HamOperation.cs:17-28 | Unpack reads the fields in the order Pack writes them. |
| Nodes.TypeOfCode | Assets/Addons/HAM/Scripts/Timeline/HamTimelineNode.cs:28-64 | A type byte names a node type exactly when it is below 4, and then it is that type's code; any other byte is an unknown type. |
| Nodes.NewDecision | Assets/Addons/HAM/Scripts/Timeline/HamTimelineNode.cs:338-344 | A new decision has the given text and dialog flag, no predicates, and no next node. |
| Nodes.NewDialogNode | Assets/Addons/HAM/Scripts/Timeline/HamTimelineNode.cs:112-127 | A new dialog node has no parents and no next node; its characters are a copy of the given list, or empty for null. |
| Nodes.NewBranchNode | Assets/Addons/HAM/Scripts/Timeline/HamTimelineNode.cs:211-215 | A new branch node has no parents, no predicates and no default next node. |
| Nodes.NewDecisionNode | Assets/Addons/HAM/Scripts/Timeline/HamTimelineNode.cs:381-385 | A new decision node has no parents and exactly one empty decision. |
| Nodes.NewConsequenceNode | Assets/Addons/HAM/Scripts/Timeline/HamTimelineNode.cs:481-485 | A new consequence node has no parents, no operations and no next node. |
| Nodes.AddPredicate | Assets/Addons/HAM/Scripts/Timeline/HamTimelineNode.cs:217-222 | AddPredicate appends one new predicate and changes nothing else. |
| Nodes.AddDecision | Assets/Addons/HAM/Scripts/Timeline/HamTimelineNode.cs:387-392 | AddDecision appends one decision with the given text and flag. |
| Nodes.AddOperation | Assets/Addons/HAM/Scripts/Timeline/HamTimelineNode.cs:487-490 | AddOperation appends one new operation. |
| Nodes.IndexOf | Assets/Addons/HAM/Scripts/Timeline/HamTimelineNode.cs:151-154 | List.IndexOf finds the first position holding the id, or none. |
| Nodes.Present | Assets/Addons/HAM/Scripts/Timeline/HamTimelineNode.cs:281-296 | GetDescendantIDs keeps exactly the set edges, dropping InvalidID. |
| Nodes.SetDescendant | Assets/Addons/HAM/Scripts/Timeline/HamTimelineNode.cs:224-238 | Setting a slot never changes a node's id, type or parents. |
| Nodes.SingleSlotNodes | Assets/Addons/HAM/Scripts/Timeline/HamTimelineNode.cs:129-164 | Dialog and Consequence ignore the index: after SetDescendant(id, _) every GetDescendant returns id; their descendants are [] or [next]; their free slot is 0 exactly when next is unset, else -1. |
| Nodes.SetThenGet | Assets/Addons/HAM/Scripts/Timeline/HamTimelineNode.cs:224-250 | On a slot the node has, Set then Get returns the id written, and every other slot of a multi-slot node is unchanged. |
| Nodes.SetPastEnd | Assets/Addons/HAM/Scripts/Timeline/HamTimelineNode.cs:224-238 | Setting a Branch slot beyond the default, or a Decision slot beyond the list, appends one new predicate or decision carrying the id. |
| Nodes.SetNegative | Assets/Addons/HAM/Scripts/Timeline/HamTimelineNode.cs:224-238 | A negative slot index on a Branch or Decision node fails (index out of range). |
| Nodes.SetLinks | Assets/Addons/HAM/Scripts/Timeline/HamTimelineNode.cs:129-527 | After setting a slot to a valid id, that id is among the node's descendants. |
| Nodes.ClearShrinks | Assets/Addons/HAM/Scripts/Timeline/HamTimelineNode.cs:129-527 | Clearing a slot adds no descendant. |
| Nodes.FreeSlotIsFree | Assets/Addons/HAM/Scripts/Timeline/HamTimelineNode.cs:252-269 | A Branch or Decision free slot is never -1; a Branch with an unset default answers the number of predicates; an in-range free slot holds InvalidID and every earlier slot is set; an out-of-range answer means no slot is empty. |
| Nodes.IndexOfDescendantFirst | Assets/Addons/HAM/Scripts/Timeline/HamTimelineNode.cs:271-279 | GetIndexOfDescendant returns -1 iff no slot holds the id; otherwise a slot holding it, and for multi-slot nodes the first one (Branch predicates before the default). |
| Nodes.DescendantsAreSlots | Assets/Addons/HAM/Scripts/Timeline/HamTimelineNode.cs:281-296 | Every id in GetDescendantIDs is valid and is found by GetIndexOfDescendant at a slot holding it; every valid id held by a slot is a descendant. |
| Nodes.SetSucceeds | Assets/Addons/HAM/Scripts/Timeline/HamTimelineNode.cs:224-238 | For a node with room, SetDescendant succeeds iff the node is single-slot or the index is not negative. |
| Nodes.SetKeepsRange | Assets/Addons/HAM/Scripts/Timeline/HamTimelineNode.cs:224-238 | Setting a slot never takes away a slot the node had. |
| Nodes.GetFreeDescendantSlot | Assets/Addons/HAM/Scripts/Timeline/HamTimelineNode.cs:252-269 | The loop answers the free-slot function for every node variant. |
| Nodes.GetIndexOfDescendant | Assets/Addons/HAM/Scripts/Timeline/HamTimelineNode.cs:423-433 | The loop answers the index-of-descendant function for every node variant. |
| Nodes.GetDescendantIDs | Assets/Addons/HAM/Scripts/Timeline/HamTimelineNode.cs:435-446 | The loop answers the descendant-list function for every node variant. |
| NodePacking.ParseBody | Assets/Addons/HAM/Scripts/Timeline/HamTimelineNode.cs:185-202 | A node body read for a given header has that header's type, id and parent list. |
| NodePacking.DecisionRoundTrip | Assets/Addons/HAM/Scripts/Timeline/HamTimelineNode.cs:346-375 | A packed decision (text, dialog flag, predicates, next node) unpacks unchanged. |
| NodePacking.DialogBodyRoundTrip | Assets/Addons/HAM/Scripts/Timeline/HamTimelineNode.cs:171-202 | A dialog node's body (scene, characters, speaker, text, next) unpacks unchanged. |
| NodePacking.BranchBodyRoundTrip | Assets/Addons/HAM/Scripts/Timeline/HamTimelineNode.cs:303-324 | A branch node's body (predicates, default next) unpacks unchanged. |
| NodePacking.DecisionBodyRoundTrip | Assets/Addons/HAM/Scripts/Timeline/HamTimelineNode.cs:453-472 | A decision node's body (decisions) unpacks unchanged. |
| NodePacking.ConsequenceBodyRoundTrip | Assets/Addons/HAM/Scripts/Timeline/HamTimelineNode.cs:534-555 | A consequence node's body (operations, next) unpacks unchanged. |
| NodePacking.BodyRoundTrip | Assets/Addons/HAM/Scripts/Timeline/HamTimelineNode.cs:171-555 | Every node variant's body unpacks unchanged. |
| NodePacking.HeaderRoundTrip | Assets/Addons/HAM/Scripts/Timeline/HamTimelineNode.cs:15-45 | The header (type byte, id, parent list in order) unpacks unchanged. |
| NodePacking.IntsRoundTrip | Assets/Addons/HAM/Scripts/Timeline/HamTimelineNode.cs:20-45 | The parent-id list is read back as the same list. |
| NodePacking.NodeRoundTrip | Assets/Addons/HAM/Scripts/Timeline/HamTimelineNode.cs:15-70 | Unpack(Pack(node)) restores type, ID, PreviousNodeIDs in order and the variant payload, and leaves the rest. |
| NodePacking.UnknownTypeIsNull | Assets/Addons/HAM/Scripts/Timeline/HamTimelineNode.cs:47-64 | A type byte of 4 or more yields no node. |
| NodePacking.PackInts | Assets/Addons/HAM/Scripts/Timeline/HamTimelineNode.cs:20-24 | An int list is written as its count followed by each int in order. |
| NodePacking.PackPredicates | Assets/Addons/HAM/Scripts/Timeline/HamTimelineNode.cs:303-311 | A predicate list is written count-first, each predicate by its own Pack. |
| NodePacking.PackOperations | Assets/Addons/HAM/Scripts/Timeline/HamTimelineNode.cs:534-542 | An operation list is written count-first, each operation by its own Pack. |
| NodePacking.PackDecision | Assets/Addons/HAM/Scripts/Timeline/HamTimelineNode.cs:346-358 | A decision is written as its layout. |
| NodePacking.PackDecisions | Assets/Addons/HAM/Scripts/Timeline/HamTimelineNode.cs:453-460 | The decision list is written count-first, each decision in order. |
| NodePacking.PackBody | Assets/Addons/HAM/Scripts/Timeline/HamTimelineNode.cs:171-542 | Each variant's Pack writes the bytes of its body layout. |
| NodePacking.PackNode | Assets/Addons/HAM/Scripts/Timeline/HamTimelineNode.cs:15-27 | The static Pack writes the header and then the body. |
| NodePacking.UnpackInts | Assets/Addons/HAM/Scripts/Timeline/HamTimelineNode.cs:37-45 | Reading an int list reads the count and then that many ints. |
| NodePacking.UnpackPredicates | Assets/Addons/HAM/Scripts/Timeline/HamTimelineNode.cs:312-324 | Reading the predicate list reads the count and then each predicate. |
| NodePacking.UnpackOperations | Assets/Addons/HAM/Scripts/Timeline/HamTimelineNode.cs:543-555 | Reading the operation list reads the count and then each operation. |
| NodePacking.UnpackDecision | Assets/Addons/HAM/Scripts/Timeline/HamTimelineNode.cs:359-375 | Reading a decision reads its fields in the order they were written. |
| NodePacking.UnpackDecisions | Assets/Addons/HAM/Scripts/Timeline/HamTimelineNode.cs:461-472 | Reading the decision list reads the count and then each decision. |
| NodePacking.UnpackBody | Assets/Addons/HAM/Scripts/Timeline/HamTimelineNode.cs:185-555 | Each variant's Unpack reads the bytes of its body layout. |
| NodePacking.UnpackNode | Assets/Addons/HAM/Scripts/Timeline/HamTimelineNode.cs:28-70 | The static Unpack reads the header, builds the node of that type (none for an unknown type) and reads its body. |
| Graphs.Put | Assets/Addons/HAM/Scripts/Timeline/HamTimeline.cs:222-224 | Writing a node back under its key changes that entry only. |
| Graphs.WithParents | Assets/Addons/HAM/Scripts/Timeline/HamTimeline.cs:245 | Changing a node's parent list leaves its id, type and edge slots as they were. |
| Graphs.DropParent | Assets/Addons/HAM/Scripts/Timeline/HamTimeline.cs:272 | Removing a parent leaves the node's slots, descendants and free slot unchanged. |
| Graphs.Link | Assets/Addons/HAM/Scripts/Timeline/HamTimeline.cs:304-327 | LinkNodes keeps the set of node ids and every node's id. |
| Graphs.Rehome | Assets/Addons/HAM/Scripts/Timeline/HamTimeline.cs:310-318 | Re-homing the former child keeps the node ids. |
| Graphs.Attach | Assets/Addons/HAM/Scripts/Timeline/HamTimeline.cs:322-323 | Attaching the new child keeps the node ids. |
| Graphs.AttachSucceeds | Assets/Addons/HAM/Scripts/Timeline/HamTimeline.cs:322-323 | Attaching into an existing slot completes iff the child's parent list can grow. |
| Graphs.AttachEffects | Assets/Addons/HAM/Scripts/Timeline/HamTimeline.cs:322-323 | After attaching, slot i of the parent is the child, the child's parents gain the parent at the end, and nothing else changes. |
| Graphs.RehomeSucceeds | Assets/Addons/HAM/Scripts/Timeline/HamTimeline.cs:310-318 | With room in both lists, re-homing the former child completes. |
| Graphs.RehomeSteps | Assets/Addons/HAM/Scripts/Timeline/HamTimeline.cs:310-318 | Re-homing completes when the child's free slot can be set and the former child's parents can grow. |
| Graphs.RehomeEffects | Assets/Addons/HAM/Scripts/Timeline/HamTimeline.cs:310-318 | The former child loses the parent and gains the new child as a parent; the new child holds the former child in its free slot (or its single slot is overwritten); nothing else changes. |
| Graphs.RehomeKeepsRange | Assets/Addons/HAM/Scripts/Timeline/HamTimeline.cs:310-318 | Re-homing the former child never takes away slot i of the parent. |
| Graphs.LinkSucceeds | Assets/Addons/HAM/Scripts/Timeline/HamTimeline.cs:304-327 | With room in the lists, LinkNodes completes iff slot i exists and holds InvalidID or an existing node (otherwise KeyNotFound). |
| Graphs.LinkLinks | Assets/Addons/HAM/Scripts/Timeline/HamTimeline.cs:304-327 | After LinkNodes the parent's slot i holds the child and the parent is the child's last parent. |
| Graphs.LinkSteps | Assets/Addons/HAM/Scripts/Timeline/HamTimeline.cs:304-327 | LinkNodes is Attach when slot i was empty, and otherwise Rehome of the former child followed by Attach. |
| Graphs.LinkIntoEmpty | Assets/Addons/HAM/Scripts/Timeline/HamTimeline.cs:321-323 | Linking into an empty slot sets it, appends the parent to the child's parents, and changes nothing else. |
| Graphs.LinkOverFormer | Assets/Addons/HAM/Scripts/Timeline/HamTimeline.cs:306-323 | Linking over a former child splices the new child in between: the former child's parents trade the parent for the new child, and the new child points at the former child. |
| Graphs.CanLinkCleanlyMeans | Assets/Addons/HAM/Scripts/Timeline/HamTimeline.cs:329-334 | CanLinkCleanly is true iff linking keeps every descendant the child had; false means the child's single slot was occupied and is overwritten by the former child. |
| Graphs.ReleaseChildren | Assets/Addons/HAM/Scripts/Timeline/HamTimeline.cs:265-273 | The dependant loop keeps the node ids. |
| Graphs.RelinkParents | Assets/Addons/HAM/Scripts/Timeline/HamTimeline.cs:276-281 | The relink loop keeps the node ids. |
| Graphs.DeleteNode | Assets/Addons/HAM/Scripts/Timeline/HamTimeline.cs:259-302 | DeleteNode keeps every remaining node's id. |
| Graphs.TargetOf | Assets/Addons/HAM/Scripts/Timeline/HamTimeline.cs:280 | Parents are relinked to the dependant when there is one, else to InvalidID. |
| Graphs.DeleteNodeLoops | Assets/Addons/HAM/Scripts/Timeline/HamTimeline.cs:264-281 | Both loops of DeleteNode complete on a detachable node: each descendant loses the node as a parent, each parent's slot for the node is relinked to the target, and the dependant found is the last uniquely parented child. |
| Graphs.DeleteNodeResult | Assets/Addons/HAM/Scripts/Timeline/HamTimeline.cs:259-302 | DeleteNode removes the node after the loops; if it was the origin, the origin moves to the dependant or to the first descendant, and a childless origin throws (descendants[0]) after the loops have run. |
| Graphs.DeleteNodeSucceeds | Assets/Addons/HAM/Scripts/Timeline/HamTimeline.cs:283-295 | DeleteNode completes iff the node is not a childless origin. |
| Graphs.DeleteNodeEffects | Assets/Addons/HAM/Scripts/Timeline/HamTimeline.cs:259-302 | After DeleteNode the node is gone; no node lists it as a parent; descendants lost it once; each parent's slot for it now holds the dependant (or InvalidID) and every other slot is as before; the parents are NOT added to the dependant's parent list. |
| Graphs.DeleteNodeNode | Assets/Addons/HAM/Scripts/Timeline/HamTimeline.cs:259-302 | What DeleteNode leaves at any one remaining node: its parents and slots. |
| Graphs.CountUniquelyParented | Assets/Addons/HAM/Scripts/Timeline/HamTimeline.cs:345-349 | The count is defined exactly when every descendant is a node, and never exceeds their number. |
| Graphs.CountBelowTwo | Assets/Addons/HAM/Scripts/Timeline/HamTimeline.cs:345-350 | Fewer than two dependants means no two descendants are both uniquely parented. |
| Graphs.CanRemoveCleanlyMeans | Assets/Addons/HAM/Scripts/Timeline/HamTimeline.cs:336-351 | CanRemoveCleanly is false for a childless origin and otherwise true iff every uniquely parented descendant is the dependant. |
| Graphs.OnlyTheDependant | Assets/Addons/HAM/Scripts/Timeline/HamTimeline.cs:345-350 | Having no two uniquely parented children is the same as every uniquely parented child being the dependant. |
| Graphs.CanRemoveCleanlyOrphans | Assets/Addons/HAM/Scripts/Timeline/HamTimeline.cs:336-351 | A descendant is left parentless by DeleteNode iff it was uniquely parented; CanRemoveCleanly holds iff the only descendant left parentless is the one the parents are relinked to. |
| Graphs.Dependant | Assets/Addons/HAM/Scripts/Timeline/HamTimeline.cs:265-273 | The dependant is none iff no descendant is uniquely parented, and otherwise the LAST uniquely parented descendant in list order. |
| Graphs.DependantCons | Assets/Addons/HAM/Scripts/Timeline/HamTimeline.cs:265-273 | The dependant of a list is the tail's dependant if it has one, else the head if uniquely parented. |
| Graphs.Relink | Assets/Addons/HAM/Scripts/Timeline/HamTimeline.cs:278-280 | Relinking sets the first slot holding the node to the target and keeps id, type and parents. |
| Graphs.RelinkSlots | Assets/Addons/HAM/Scripts/Timeline/HamTimeline.cs:278-280 | Relinking one slot of a multi-slot node leaves every other slot unchanged. |
| Graphs.RelinkParentsEffects | Assets/Addons/HAM/Scripts/Timeline/HamTimeline.cs:276-281 | On distinct parents that each hold the node, the relink loop completes and relinks exactly those parents. |
| Graphs.ReleaseChildrenEffects | Assets/Addons/HAM/Scripts/Timeline/HamTimeline.cs:265-273 | On distinct children, the dependant loop completes, drops the node from exactly those children's parents, and finds the dependant. |
| Graphs.LastDialogSound | Assets/Addons/HAM/Scripts/Timeline/HamTimeline.cs:360-372 | GetLastDialogNode of a dialog node is that node; a dialog found otherwise lies at the end of a path of parents through non-dialog nodes; "none" means no dialog lies above. |
| Graphs.LastDialogAmongSound | Assets/Addons/HAM/Scripts/Timeline/HamTimeline.cs:363-371 | A dialog found among a parent list ends a path of non-dialog parents from one of them; "none" means no dialog is above any of them. |
| Graphs.LastDialogAmongFirst | Assets/Addons/HAM/Scripts/Timeline/HamTimeline.cs:363-371 | The dialog found is the one of the first parent, in list order, above which there is a dialog: all earlier parents are non-dialog with no dialog above them. |
| Graphs.LastDialogAmongFinishes | Assets/Addons/HAM/Scripts/Timeline/HamTimeline.cs:363-371 | When every parent chain ends within the fuel bound at a dialog or a root, the search finishes (no missing parent, no fuel stop). |
| Graphs.LastDialogAmongComplete | Assets/Addons/HAM/Scripts/Timeline/HamTimeline.cs:363-371 | Converse of soundness: if some path of parents reaches a dialog, the search finds one. |
| Graphs.LastDialogComplete | Assets/Addons/HAM/Scripts/Timeline/HamTimeline.cs:360-372 | GetLastDialogNode returns a dialog whenever the node is one or a dialog lies above it. |
| Graphs.WalkStep | Assets/Addons/HAM/Scripts/Timeline/HamTimeline.cs:363-365 | A path of parents can be extended by one parent at the front. |
| TreeDeletion.UnlinkParents | Assets/Addons/HAM/Scripts/Timeline/HamTimeline.cs:215-225 | The parent loop keeps the node ids. |
| TreeDeletion.LiveParents | Assets/Addons/HAM/Scripts/Timeline/HamTimeline.cs:237-244 | The count of surviving parents is 0 iff every other parent has already been removed from the map. |
| TreeDeletion.Orphan | Assets/Addons/HAM/Scripts/Timeline/HamTimeline.cs:227-252 | The descendant loop only removes nodes, and every node it removes joins the queue (map size plus queue length is conserved). |
| TreeDeletion.Cascade | Assets/Addons/HAM/Scripts/Timeline/HamTimeline.cs:210-253 | The queue loop only removes nodes and keeps every remaining id. |
| TreeDeletion.DeleteTree | Assets/Addons/HAM/Scripts/Timeline/HamTimeline.cs:204-257 | DeleteTree removes the start node and keeps every remaining node's id. |
| TreeDeletion.Unlinked | Assets/Addons/HAM/Scripts/Timeline/HamTimeline.cs:222-224 | Emptying the slot that holds the deleted node keeps the node's other descendants and adds none. |
| TreeDeletion.UnlinkEffects | Assets/Addons/HAM/Scripts/Timeline/HamTimeline.cs:215-225 | On distinct parents that each hold the deleted node, every one still in the map has that slot emptied. |
| TreeDeletion.Ids | Assets/Addons/HAM/Scripts/Timeline/HamTimeline.cs:249-250 | The queue's ids, in order. |
| TreeDeletion.DeleteTreeDeletes | Assets/Addons/HAM/Scripts/Timeline/HamTimeline.cs:204-257 | With consistent back-links DeleteTree completes; the set it deletes contains the start node and is closed under "lost its last parent"; each survivor loses exactly the deleted nodes from its parents and loses descendants only among the deleted nodes. |
| TreeDeletion.DeleteTreeLeast | Assets/Addons/HAM/Scripts/Timeline/HamTimeline.cs:204-257 | Every node DeleteTree deletes is in every set that contains the start node and is closed under "lost its last parent": it deletes no more than needed. |
| Timelines.WrapInc | Assets/Addons/HAM/Scripts/Timeline/HamTimeline.cs:146 | IDCount++ on a C# int: one more, wrapping from int.MaxValue to int.MinValue. |
| Timelines.FreshId | Assets/Addons/HAM/Scripts/Timeline/HamTimeline.cs:144-201 | While ids are handed out from IDCount, the next id is in none of the four maps. |
| Timelines.EvaluatePredicate | Assets/Addons/HAM/Scripts/Timeline/HamTimeline.cs:448-457 | A predicate without a variable is false; otherwise the result is defined iff the timeline declares the variable. |
| Timelines.EvaluateIgnoresCompareValue | Assets/Addons/HAM/Scripts/Timeline/HamTimeline.cs:448-457 | The timeline's EvaluatePredicate compares the declared variable with the instance value, so CompareValue and NextNodeID do not matter. |
| Timelines.EvaluateAgreesWithPredicate | Assets/Addons/HAM/Scripts/Timeline/HamTimeline.cs:448-457 | With the predicate's own CompareValue as the instance value, it agrees with HamPredicate.Evaluate. |
| Timelines.DefaultIntro | Assets/Addons/HAM/Scripts/Timeline/HamTimeline.cs:141 | The default intro is a dialog node with id 2 in scene 1 spoken by character 0, with no descendants. |
| Timelines.DefaultSane | Assets/Addons/HAM/Scripts/Timeline/HamTimeline.cs:374-446 | The default timeline passes the sanity check. |
| Timelines.CanDeleteTreeKeepsOrigin | Assets/Addons/HAM/Scripts/Timeline/HamTimeline.cs:353-356 | If the origin has no parent, CanDeleteTree holds exactly when DeleteTree keeps the origin. |
| Timelines.CountLiveParents | Assets/Addons/HAM/Scripts/Timeline/HamTimeline.cs:237-244 | The counting loop computes the number of surviving parents other than the deleted node. |
| Timelines.Timeline.constructor | Assets/Addons/HAM/Scripts/Timeline/HamTimeline.cs:119-126 | A new timeline has empty maps, zero counters, an empty Name and dirty linkage. |
| Timelines.Timeline.AddScene | Assets/Addons/HAM/Scripts/Timeline/HamTimeline.cs:144-150 | AddScene stores Scene(IDCount, name) under its id and increments IDCount; ids stay fresh. |
| Timelines.Timeline.AddCharacter | Assets/Addons/HAM/Scripts/Timeline/HamTimeline.cs:152-158 | AddCharacter stores Character(IDCount, name) under its id and increments IDCount. |
| Timelines.Timeline.AddVariable | Assets/Addons/HAM/Scripts/Timeline/HamTimeline.cs:196-202 | AddVariable stores the new variable under IDCount and increments IDCount. |
| Timelines.Timeline.AddDialogNode | Assets/Addons/HAM/Scripts/Timeline/HamTimeline.cs:160-167 | AddDialogNode stores a new dialog node under IDCount, increments IDCount and marks the linkage dirty. |
| Timelines.Timeline.AddBranchNode | Assets/Addons/HAM/Scripts/Timeline/HamTimeline.cs:169-176 | AddBranchNode stores a new branch node under IDCount and marks the linkage dirty. |
| Timelines.Timeline.AddDecisionNode | Assets/Addons/HAM/Scripts/Timeline/HamTimeline.cs:178-185 | AddDecisionNode stores a new decision node under IDCount and marks the linkage dirty. |
| Timelines.Timeline.AddConsequenceNode | Assets/Addons/HAM/Scripts/Timeline/HamTimeline.cs:187-194 | AddConsequenceNode stores a new consequence node under IDCount and marks the linkage dirty. |
| Timelines.Timeline.DefaultInit | Assets/Addons/HAM/Scripts/Timeline/HamTimeline.cs:132-142 | DefaultInit yields narrator 0, scene 1, origin 2 and IDCount 3, and on an empty timeline a sane graph. |
| Timelines.Timeline.LinkNodes | Assets/Addons/HAM/Scripts/Timeline/HamTimeline.cs:304-327 | The node map after LinkNodes is the one Link describes, also when it throws half-way. |
| Timelines.Timeline.RehomeFormer | Assets/Addons/HAM/Scripts/Timeline/HamTimeline.cs:310-318 | The re-homing steps of LinkNodes, step by step on the map. |
| Timelines.Timeline.AttachChild | Assets/Addons/HAM/Scripts/Timeline/HamTimeline.cs:322-323 | The attaching steps of LinkNodes. |
| Timelines.Timeline.ReleaseDescendants | Assets/Addons/HAM/Scripts/Timeline/HamTimeline.cs:265-273 | The dependant loop of DeleteNode on the map. |
| Timelines.Timeline.RelinkToTarget | Assets/Addons/HAM/Scripts/Timeline/HamTimeline.cs:276-281 | The relink loop of DeleteNode on the map. |
| Timelines.Timeline.DeleteNode | Assets/Addons/HAM/Scripts/Timeline/HamTimeline.cs:259-302 | The nodes and origin after DeleteNode are those Graphs.DeleteNode describes; the linkage is marked dirty when it completes. |
| Timelines.Timeline.DeleteTree | Assets/Addons/HAM/Scripts/Timeline/HamTimeline.cs:204-257 | The nodes after DeleteTree are those TreeDeletion.DeleteTree describes. |
| Timelines.Timeline.UnlinkFromParents | Assets/Addons/HAM/Scripts/Timeline/HamTimeline.cs:215-225 | The parent loop of DeleteTree on the map. |
| Timelines.Timeline.OrphanDescendants | Assets/Addons/HAM/Scripts/Timeline/HamTimeline.cs:227-252 | The descendant loop of DeleteTree on the map and queue. |
| Timelines.Timeline.Pack | Assets/Addons/HAM/Scripts/Timeline/HamTimeline.cs:26-57 | Pack writes the timeline's bytes: head fields, then variables, scenes, characters and nodes, each section count-prefixed, in dictionary order. |
| Timelines.Timeline.Load | Assets/Addons/HAM/Scripts/Timeline/HamTimeline.cs:58-101 | Stores the fields Unpack read, as its successive assignments do. |
| Timelines.Timeline.Unpack | Assets/Addons/HAM/Scripts/Timeline/HamTimeline.cs:58-101 | Unpack reads the head fields and adds each section's entries to the maps the timeline already has. |
| TimelineFormat.InOrder | Assets/Addons/HAM/Scripts/Timeline/HamTimeline.cs:35-56 | Values enumerated in key order are the map's values at those keys. |
| TimelineFormat.CountIsSize | Assets/Addons/HAM/Scripts/Timeline/HamTimeline.cs:34-52 | The count written before a section equals the dictionary's Count. |
| TimelineFormat.ParseSceneRoundTrip | Assets/Addons/HAM/Scripts/Timeline/HamTimeline.cs:41-44 | A scene (id, name) reads back unchanged. |
| TimelineFormat.ParseCharacterRoundTrip | Assets/Addons/HAM/Scripts/Timeline/HamTimeline.cs:47-50 | A character (id, name) reads back unchanged. |
| TimelineFormat.ParseIntoRoundTrip | Assets/Addons/HAM/Scripts/Timeline/HamTimeline.cs:68-73 | Reading the items of a section into a dictionary adds each item under its own id. |
| TimelineFormat.SectionRoundTrip | Assets/Addons/HAM/Scripts/Timeline/HamTimeline.cs:66-100 | A count-prefixed section read into a dictionary yields the prior dictionary updated with the packed one. |
| TimelineFormat.HeadRoundTrip | Assets/Addons/HAM/Scripts/Timeline/HamTimeline.cs:28-32 | IDCount, Name, OriginNodeID, NarratorID and DefaultSceneID read back unchanged. |
| TimelineFormat.VariablesSection | Assets/Addons/HAM/Scripts/Timeline/HamTimeline.cs:34-73 | The variables section read into a dictionary yields that dictionary updated with every packed variable. |
| TimelineFormat.ScenesSection | Assets/Addons/HAM/Scripts/Timeline/HamTimeline.cs:40-82 | The scenes section read into a dictionary yields it updated with every packed scene. |
| TimelineFormat.CharactersSection | Assets/Addons/HAM/Scripts/Timeline/HamTimeline.cs:46-91 | The characters section read into a dictionary yields it updated with every packed character. |
| TimelineFormat.NodesSection | Assets/Addons/HAM/Scripts/Timeline/HamTimeline.cs:52-100 | The nodes section read into a dictionary yields it updated with every packed node, each under its own id. |
| TimelineFormat.TimelineRoundTripInto | Assets/Addons/HAM/Scripts/Timeline/HamTimeline.cs:26-101 | Unpacking a packed timeline into an existing one restores every head field and adds every entry of the four dictionaries. |
| TimelineFormat.EmptyTimeline | Assets/Addons/HAM/Scripts/Timeline/HamTimeline.cs:119-126 | The timeline a new HamTimeline starts as has empty maps and IDCount 0. |
| TimelineFormat.TimelineRoundTrip | Assets/Addons/HAM/Scripts/Timeline/HamTimeline.cs:26-101 | Unpack(Pack(t)) into a new timeline restores IDCount, Name, OriginNodeID, NarratorID, DefaultSceneID and all four maps. |
| TimelineFormat.PackVariable | Assets/Addons/HAM/Scripts/Timeline/HamTimeline.cs:37 | A variable is written by its layout. |
| TimelineFormat.PackScene | Assets/Addons/HAM/Scripts/Timeline/HamTimeline.cs:43 | A scene is written by its layout. |
| TimelineFormat.PackCharacter | Assets/Addons/HAM/Scripts/Timeline/HamTimeline.cs:49 | A character is written by its layout. |
| TimelineFormat.UnpackVariable | Assets/Addons/HAM/Scripts/Timeline/HamTimeline.cs:70-71 | A variable is read by its layout. |
| TimelineFormat.UnpackScene | Assets/Addons/HAM/Scripts/Timeline/HamTimeline.cs:79-80 | A scene is read by its layout. |
| TimelineFormat.UnpackCharacter | Assets/Addons/HAM/Scripts/Timeline/HamTimeline.cs:88-89 | A character is read by its layout. |
| TimelineFormat.UnpackHead | Assets/Addons/HAM/Scripts/Timeline/HamTimeline.cs:60-64 | The five head fields are read in order. |
| TimelineFormat.PackVariables | Assets/Addons/HAM/Scripts/Timeline/HamTimeline.cs:34-38 | The variables section is the count and then every variable. |
| TimelineFormat.PackScenes | Assets/Addons/HAM/Scripts/Timeline/HamTimeline.cs:40-44 | The scenes section is the count and then every scene. |
| TimelineFormat.PackCharacters | Assets/Addons/HAM/Scripts/Timeline/HamTimeline.cs:46-50 | The characters section is the count and then every character. |
| TimelineFormat.PackNodes | Assets/Addons/HAM/Scripts/Timeline/HamTimeline.cs:52-56 | The nodes section is the count and then every node. |
| TimelineFormat.UnpackNodes | Assets/Addons/HAM/Scripts/Timeline/HamTimeline.cs:93-100 | The nodes section is read into the dictionary, each node under its id. |
| TimelineFormat.UnpackVariables | Assets/Addons/HAM/Scripts/Timeline/HamTimeline.cs:66-73 | Reading the variables section adds each variable under its id, or fails. |
| TimelineFormat.UnpackScenes | Assets/Addons/HAM/Scripts/Timeline/HamTimeline.cs:75-82 | Reading the scenes section adds each scene under its id, or fails. |
| TimelineFormat.UnpackCharacters | Assets/Addons/HAM/Scripts/Timeline/HamTimeline.cs:84-91 | Reading the characters section adds each character under its id, or fails. |
| TimelineFormat.UnpackVariablesInto | Assets/Addons/HAM/Scripts/Timeline/HamTimeline.cs:66-73 | The variables section is read into the timeline's variables. |
| TimelineFormat.UnpackScenesInto | Assets/Addons/HAM/Scripts/Timeline/HamTimeline.cs:75-82 | The scenes section is read into the timeline's scenes. |
| TimelineFormat.UnpackCharactersInto | Assets/Addons/HAM/Scripts/Timeline/HamTimeline.cs:84-91 | The characters section is read into the timeline's characters. |
| TimelineFormat.UnpackNodesInto | Assets/Addons/HAM/Scripts/Timeline/HamTimeline.cs:93-100 | The nodes section is read into the timeline's nodes. |
| TimelineFormat.PackTimeline | Assets/Addons/HAM/Scripts/Timeline/HamTimeline.cs:26-57 | The whole timeline layout is written. |
| TimelineFormat.UnpackTimelineInto | Assets/Addons/HAM/Scripts/Timeline/HamTimeline.cs:58-101 | The whole timeline layout is read into the given timeline. |
| Events.Type | Assets/Addons/HAM/Scripts/HamTimelineEvent.cs:17-66 | Each event kind sets its own Type tag and no two kinds share one. |
| Events.ChoiceBuilder.constructor | Assets/Addons/HAM/Scripts/HamTimelineEvent.cs:66-69 | A new choice event has no choices. |
| Events.ChoiceBuilder.AddChoice | Assets/Addons/HAM/Scripts/HamTimelineEvent.cs:71-74 | AddChoice maps the id to the decision, replacing an earlier entry and leaving every other key. |
| Events.ChoiceBuilder.Event | Assets/Addons/HAM/Scripts/HamTimelineEvent.cs:62-69 | The event handed over is a Choice event with exactly the choices added. |
| Playback.CopyValuesStored | Assets/Addons/HAM/Scripts/HamTimelineInstance.cs:100-106 | Copying the variables in any order stores each variable's value under its id. |
| Playback.InitializeCopiesAll | Assets/Addons/HAM/Scripts/HamTimelineInstance.cs:100-106 | InitializeVariables leaves exactly the declared variables' values, whatever the dictionary order. |
| Playback.EvaluatePredicate | Assets/Addons/HAM/Scripts/HamTimelineInstance.cs:108-117 | The instance's check is true iff the instance has the variable, the timeline declares it, and the declared value compares true with the instance value; it throws only when the timeline lacks a variable the instance has. |
| Playback.BranchSkipsFalse | Assets/Addons/HAM/Scripts/HamTimelineInstance.cs:151-159 | Predicates that evaluate false are skipped. |
| Playback.BranchTakesFirstTrue | Assets/Addons/HAM/Scripts/HamTimelineInstance.cs:147-165 | A branch goes to the NextNodeID of the lowest-index predicate that is true, else to DefaultNextID. |
| Playback.ApplyOperations | Assets/Addons/HAM/Scripts/HamTimelineInstance.cs:166-180 | Running the operations never adds or removes an instance variable. |
| Playback.ApplyConcat | Assets/Addons/HAM/Scripts/HamTimelineInstance.cs:169-178 | Operations run in list order: running a + b is running a and then b. |
| Playback.ApplyUntouched | Assets/Addons/HAM/Scripts/HamTimelineInstance.cs:169-178 | A variable no operation names keeps its value. |
| Playback.ApplySkipsMissing | Assets/Addons/HAM/Scripts/HamTimelineInstance.cs:171-175 | Operations on variables the instance lacks are skipped. |
| Playback.AllMetMeans | Assets/Addons/HAM/Scripts/HamTimelineInstance.cs:230-238 | A decision's requirements are met iff every one of its predicates evaluates true. |
| Playback.ChoicesFromMeans | Assets/Addons/HAM/Scripts/HamTimelineInstance.cs:228-243 | The Choice event offers exactly the decisions whose requirements are met, each under its index. |
| Playback.ChoiceKeys | Assets/Addons/HAM/Scripts/HamTimelineInstance.cs:224-246 | The Choice event's keys are exactly the indices whose predicates all evaluate true, mapped to those decisions. |
| Playback.Determine | Assets/Addons/HAM/Scripts/HamTimelineInstance.cs:119-188 | DetermineNextNode changes only currentNodeID and the variables' values, never the history, scene or cast. |
| Playback.InvalidGoesToOrigin | Assets/Addons/HAM/Scripts/HamTimelineInstance.cs:121-125 | From InvalidID, DetermineNextNode moves to OriginNodeID without consulting anything else. |
| Playback.DialogFollows | Assets/Addons/HAM/Scripts/HamTimelineInstance.cs:129-134 | At a Dialog node DetermineNextNode moves to its NextNodeID and changes nothing else. |
| Playback.DecisionChoice | Assets/Addons/HAM/Scripts/HamTimelineInstance.cs:136-146 | At a Decision node choice -1 leaves the state as it was, a decision's index moves to that decision's NextNodeID, and any other index throws. |
| Playback.BranchIdempotent | Assets/Addons/HAM/Scripts/HamTimelineInstance.cs:147-165 | At a branch only currentNodeID changes, and with the same variables the same target is chosen. |
| Playback.Without | Assets/Addons/HAM/Scripts/HamTimelineInstance.cs:206-219 | The characters leaving are those in the scene not listed by the node; those entering are the reverse. |
| Playback.CharacterEvents | Assets/Addons/HAM/Scripts/HamTimelineInstance.cs:206-219 | One event per character, in list order. |
| Playback.AnnounceMeans | Assets/Addons/HAM/Scripts/HamTimelineInstance.cs:206-219 | Announcing completes iff every announced character exists, and emits one event per character in order. |
| Playback.ShowCast | Assets/Addons/HAM/Scripts/HamTimelineInstance.cs:206-221 | Showing the cast changes only the characters in scene. |
| Playback.ProcessDialog | Assets/Addons/HAM/Scripts/HamTimelineInstance.cs:198-223 | Processing a dialog node never changes the variables, node or history, and stops when it completes. |
| Playback.Process | Assets/Addons/HAM/Scripts/HamTimelineInstance.cs:190-261 | ProcessCurrentNode at InvalidID leaves history alone; elsewhere it appends exactly the current id. |
| Playback.ProcessAtInvalid | Assets/Addons/HAM/Scripts/HamTimelineInstance.cs:192 | At InvalidID it returns true at once with nothing emitted. |
| Playback.ProcessStops | Assets/Addons/HAM/Scripts/HamTimelineInstance.cs:190-261 | It returns true exactly at InvalidID, a dialog or a decision; at a branch or consequence it emits nothing and returns false. |
| Playback.DialogEvents | Assets/Addons/HAM/Scripts/HamTimelineInstance.cs:198-223 | A dialog emits a SceneChanges (if the scene differs), then the leaving and entering characters, then the Dialog event; afterwards scene and cast equal the node's; it completes iff every looked-up scene and character exists. |
| Playback.CastEvents | Assets/Addons/HAM/Scripts/HamTimelineInstance.cs:206-221 | The leaving events, then the entering events, then the Dialog event. |
| Playback.DecisionEvent | Assets/Addons/HAM/Scripts/HamTimelineInstance.cs:224-246 | A decision emits exactly one Choice event with the offered decisions and stops. |
| Playback.Round | Assets/Addons/HAM/Scripts/HamTimelineInstance.cs:94-97 | One pass of the do-while loop; a throw never reports a stop. |
| Playback.Resume | Assets/Addons/HAM/Scripts/HamTimelineInstance.cs:95-97 | Events already emitted stay in front of those a later round emits; state and status are the later round's. |
| Playback.AdvanceStops | Assets/Addons/HAM/Scripts/HamTimelineInstance.cs:92-98 | When Advance stops, it is at InvalidID, or at a dialog or decision node that was the last appended to history. |
| Playback.AdvanceHistoryGrows | Assets/Addons/HAM/Scripts/HamTimelineInstance.cs:92-98 | Advance only ever appends to nodeHistory. |
| Playback.AdvanceFuelEnough | Assets/Addons/HAM/Scripts/HamTimelineInstance.cs:92-98 | More steps never change a run that has finished: the fuel bound is not a behaviour. |
| Playback.DecisionWaits | Assets/Addons/HAM/Scripts/HamTimelineInstance.cs:92-246 | Advance(-1) at a Decision node stops there again: the node is appended to the history once more and its Choice event is sent again, nothing else changes. |
| Playback.DecisionTaken | Assets/Addons/HAM/Scripts/HamTimelineInstance.cs:92-146 | Advance(choice) at a Decision node carries on from the chosen decision's NextNodeID; an index naming no decision fails with no move and no event. |
| Instances.TimelineInstance.constructor | Assets/Addons/HAM/Scripts/HamTimelineInstance.cs:77-90 | A new instance plays the given timeline from InvalidID, scene 0, no cast, empty history, with each declared variable's value. |
| Instances.TimelineInstance.InitializeVariables | Assets/Addons/HAM/Scripts/HamTimelineInstance.cs:100-106 | The variables become the declared values copied in dictionary order. |
| Instances.TimelineInstance.Emit | Assets/Addons/HAM/Scripts/HamTimelineInstance.cs:65-66 | An event handed to the listener is appended to the emitted sequence. |
| Instances.TimelineInstance.BranchTarget | Assets/Addons/HAM/Scripts/HamTimelineInstance.cs:147-165 | The branch loop answers the branch target function. |
| Instances.TimelineInstance.RunOperations | Assets/Addons/HAM/Scripts/HamTimelineInstance.cs:166-178 | The operation loop leaves the variables Playback.ApplyOperations describes. |
| Instances.TimelineInstance.DetermineNextNode | Assets/Addons/HAM/Scripts/HamTimelineInstance.cs:119-188 | The node and variables after DetermineNextNode are those Playback.Determine describes. |
| Instances.TimelineInstance.Announce | Assets/Addons/HAM/Scripts/HamTimelineInstance.cs:206-219 | The character loops emit the events Playback.Announce describes. |
| Instances.TimelineInstance.ShowCast | Assets/Addons/HAM/Scripts/HamTimelineInstance.cs:206-221 | The cast change and its events. |
| Instances.TimelineInstance.ShowDialog | Assets/Addons/HAM/Scripts/HamTimelineInstance.cs:198-223 | The dialog case of ProcessCurrentNode. |
| Instances.TimelineInstance.RequirementsMet | Assets/Addons/HAM/Scripts/HamTimelineInstance.cs:230-238 | The requirement loop answers Playback.AllMet. |
| Instances.TimelineInstance.OfferChoices | Assets/Addons/HAM/Scripts/HamTimelineInstance.cs:224-244 | The decision loop builds exactly the Choice event Playback.ChoicesFrom describes. |
| Instances.TimelineInstance.ProcessCurrentNode | Assets/Addons/HAM/Scripts/HamTimelineInstance.cs:190-261 | The state and events after ProcessCurrentNode are those Playback.Process describes. |
| Instances.TimelineInstance.Round | Assets/Addons/HAM/Scripts/HamTimelineInstance.cs:94-97 | One DetermineNextNode and ProcessCurrentNode. |
| Instances.TimelineInstance.Advance | Assets/Addons/HAM/Scripts/HamTimelineInstance.cs:92-98 | The state, events and status after Advance are those Playback.Advance describes. |
| Instances.TimelineInstance.Pack | Assets/Addons/HAM/Scripts/HamTimelineInstance.cs:6-27 | Pack writes the timeline, then the variable entries, the node and scene ids, the cast and the history. |
| Instances.TimelineInstance.Load | Assets/Addons/HAM/Scripts/HamTimelineInstance.cs:28-63 | Stores the timeline and the state Unpack read. |
| Instances.TimelineInstance.Unpack | Assets/Addons/HAM/Scripts/HamTimelineInstance.cs:28-63 | Unpack reads a new timeline and then adds the saved entries to the instance's variables, cast and history. |
| InstanceFormat.Entries | Assets/Addons/HAM/Scripts/HamTimelineInstance.cs:10-14 | The variable entries are written as (key, value) in dictionary order. |
| InstanceFormat.EntryRoundTrip | Assets/Addons/HAM/Scripts/HamTimelineInstance.cs:37-41 | A (key, value) entry reads back unchanged. |
| InstanceFormat.EntriesRoundTrip | Assets/Addons/HAM/Scripts/HamTimelineInstance.cs:35-42 | Reading the entries adds each value under its key. |
| InstanceFormat.ValuesRoundTrip | Assets/Addons/HAM/Scripts/HamTimelineInstance.cs:9-42 | The variables section reads back as the packed dictionary, added to the prior one. |
| InstanceFormat.ListsRoundTrip | Assets/Addons/HAM/Scripts/HamTimelineInstance.cs:17-62 | The cast and history lists read back and are appended to the lists the instance has. |
| InstanceFormat.StateRoundTrip | Assets/Addons/HAM/Scripts/HamTimelineInstance.cs:9-62 | The instance state reads back: variables added, node and scene ids restored, cast and history appended. |
| InstanceFormat.InstanceRoundTripInto | Assets/Addons/HAM/Scripts/HamTimelineInstance.cs:6-63 | Unpacking a packed instance restores the timeline and the state, added to what the instance had. |
| InstanceFormat.InstanceRoundTrip | Assets/Addons/HAM/Scripts/HamTimelineInstance.cs:6-63 | Into an instance with empty cast and history whose variables are among the saved ones, Unpack(Pack(i)) restores the timeline and the state exactly. |
| InstanceFormat.Overwrites | Assets/Addons/HAM/Scripts/HamTimelineInstance.cs:35-62 | Adding a saved state to an empty one gives the saved state. |
| InstanceFormat.PackValues | Assets/Addons/HAM/Scripts/HamTimelineInstance.cs:9-14 | The variables section is the count and then every entry. |
| InstanceFormat.PackState | Assets/Addons/HAM/Scripts/HamTimelineInstance.cs:9-26 | The state layout is written. |
| InstanceFormat.PackInstance | Assets/Addons/HAM/Scripts/HamTimelineInstance.cs:6-27 | The instance layout is written: the timeline, then the state. |
| InstanceFormat.UnpackEntry | Assets/Addons/HAM/Scripts/HamTimelineInstance.cs:37-41 | An entry is read by its layout. |
| InstanceFormat.UnpackValuesInto | Assets/Addons/HAM/Scripts/HamTimelineInstance.cs:33-42 | The variables section is read into the dictionary. |
| InstanceFormat.UnpackListsInto | Assets/Addons/HAM/Scripts/HamTimelineInstance.cs:46-62 | The cast and history are read and appended. |
| InstanceFormat.UnpackStateInto | Assets/Addons/HAM/Scripts/HamTimelineInstance.cs:33-62 | The state layout is read. |
| InstanceFormat.UnpackInstanceInto | Assets/Addons/HAM/Scripts/HamTimelineInstance.cs:28-63 | The instance layout is read. |
| NodePlacement.PlacementTree.constructor | Assets/Addons/HAM/Editor/HamNodePlacer.cs:89-133 | The tree of PlacementNodes the discovery loop built, with every WidthOffset 0. |
| NodePlacement.PlacementTree.Widen | Assets/Addons/HAM/Editor/HamNodePlacer.cs:137-144 | The reverse pass makes every node as wide as its own start width plus its children's widths. |
| NodePlacement.PlacementTree.Spread | Assets/Addons/HAM/Editor/HamNodePlacer.cs:148-167 | The top-down pass lays each node's children side by side across its span, and places every node at (WidthOffset, Depth). |
| NodePlacement.Seed | Assets/Addons/HAM/Editor/HamNodePlacer.cs:97-102 | The root PlacementNode is the origin at depth 0 with no children. |
| NodePlacement.Adopted | Assets/Addons/HAM/Editor/HamNodePlacer.cs:19-35 | A new PlacementNode is its parent's last child, one row below it, with width 0. |
| NodePlacement.AdoptedFormed | Assets/Addons/HAM/Editor/HamNodePlacer.cs:19-35 | Adopting a new node keeps the PlacementNodes a tree. |
| NodePlacement.ReParent | Assets/Addons/HAM/Editor/HamNodePlacer.cs:37-45 | ReParent raises a node's Depth to one row below the new parent when that is deeper, keeping its Parent of record, and then re-rows its subtree so that every node below it sits one row below its tree parent (which can move up a descendant an earlier ReParent pushed deeper); otherwise nothing changes; nodes outside its subtree keep their rows. |
| NodePlacement.AdoptStep | Assets/Addons/HAM/Editor/HamNodePlacer.cs:113-123 | Parenting a newly seen descendant keeps the discovery invariant. |
| NodePlacement.RevisitStep | Assets/Addons/HAM/Editor/HamNodePlacer.cs:124-127 | Re-parenting a seen descendant keeps the discovery invariant. |
| NodePlacement.Offer | Assets/Addons/HAM/Editor/HamNodePlacer.cs:111-128 | One descendant is parented when new, or re-parented when seen. |
| NodePlacement.OfferAll | Assets/Addons/HAM/Editor/HamNodePlacer.cs:109-128 | Every descendant of the current node is offered, and a missing node stops the walk. |
| NodePlacement.CloseStep | Assets/Addons/HAM/Editor/HamNodePlacer.cs:129-132 | A node that parented no new child gets width 1. |
| NodePlacement.Expand | Assets/Addons/HAM/Editor/HamNodePlacer.cs:107-132 | One dequeued node is fully processed. |
| NodePlacement.Visit | Assets/Addons/HAM/Editor/HamNodePlacer.cs:105-133 | One round of the discovery loop keeps the discovery invariant and either finds a new node or shortens the queue; failing means some node reachable from the origin is missing. |
| NodePlacement.Discover | Assets/Addons/HAM/Editor/HamNodePlacer.cs:97-133 | The discovery loop succeeds with every reachable node walked, or fails exactly because a reachable descendant id is not a node (KeyNotFound). |
| NodePlacement.Widths | Assets/Addons/HAM/Editor/HamNodePlacer.cs:137-144 | The reverse pass in value form: each width is its start plus its children's widths. |
| NodePlacement.Offsets | Assets/Addons/HAM/Editor/HamNodePlacer.cs:148-167 | The top-down pass in value form. |
| NodePlacement.SpreadStep | Assets/Addons/HAM/Editor/HamNodePlacer.cs:149-163 | One dequeued node lays its children and is placed. |
| NodePlacement.LayChildren | Assets/Addons/HAM/Editor/HamNodePlacer.cs:152-160 | Each child is centred so that its left edge (WidthOffset minus half its Width) is the parent's left edge plus the Widths of the siblings before it; nodes that are not children keep their offsets. |
| NodePlacement.RefreshDepth | Assets/Addons/HAM/Editor/HamNodePlacer.cs:47-63 | RefreshDepth puts every node below x exactly one row below its parent and leaves everything else as it was. |
| NodePlacement.RerowStep | Assets/Addons/HAM/Editor/HamNodePlacer.cs:56-61 | One dequeued node of RefreshDepth. |
| NodePlacement.Discovered | Assets/Addons/HAM/Editor/HamNodePlacer.cs:97-133 | After discovery: one PlacementNode per reachable node, linked along descendant edges into a tree below the origin, each at least a row below its parent and at a Depth at least its breadth-first distance from the origin; without reparenting exactly at its breadth-first distance; leaves width 1, others 0. |
| NodePlacement.LaidOut | Assets/Addons/HAM/Editor/HamNodePlacer.cs:87-168 | The discovery, width and offset passes together give the Layout. |
| NodePlacement.SpannedBy | Assets/Addons/HAM/Editor/HamNodePlacer.cs:137-167 | The widths and offsets of the two later passes make every node span exactly its children. |
| NodePlacement.SpannedAdjacent | Assets/Addons/HAM/Editor/HamNodePlacer.cs:148-160 | Children are adjacent: each ends where the next begins, the first starts at the parent's left edge and the last ends at its right edge. |
| NodePlacement.NodePlacer.constructor | Assets/Addons/HAM/Editor/HamNodePlacer.cs:81-85 | The placer keeps the timeline and the reparenting flag. |
| NodePlacement.NodePlacer.GetNodePlacement | Assets/Addons/HAM/Editor/HamNodePlacer.cs:87-168 | GetNodePlacement fails exactly when a reachable descendant id is not a node; otherwise every node reachable from the origin gets a place at (offset, row), laid out as above. |

## Left out

- Predicates.PackPredicate: requires `Valid` (a set VariableID has a CompareValue); the source's Pack would throw a NullReferenceException on a set VariableID with a null CompareValue, and that throw is not modelled. Predicates.ParsePredicate shows every unpacked predicate is `Valid`.
- Operations.PackOperation: requires `Valid` in the same way; the throw on a set VariableID with a null Operand is not modelled.
- Timelines.Timeline.Pack: requires every node to be `Packable` (its predicates and operations `Valid`), so the throws above are not modelled there either; the same holds for TimelineFormat.PackTimeline and Instances.TimelineInstance.Pack.
- Playback.Advance: the `do … while (!ProcessCurrentNode())` loop is a function with a `fuel` bound; running out gives the status `OutOfFuel`, which the source has no counterpart for (it loops forever on a cycle of branch and consequence nodes). Playback.AdvanceFuelEnough shows more fuel never changes a finished run; Instances.TimelineInstance.Advance takes the fuel as an argument.
- Graphs.LastDialog: GetLastDialogNode's recursion carries a `fuel` bound; the result `Stuck` covers both a missing parent (KeyNotFound in the source) and a fuel stop. On a cycle of non-dialog parents the source recurses until the stack overflows.
- Serializer.TextCodec: `Encoding.Unicode` is an abstract string codec; the string round trip assumes it decodes what it encodes (`TextCodecSound`).
- Values.ValueCodec: `VariableValue` is an opaque type whose Pack/Unpack are a parameter; round trips assume the codec is sound (`Sound(c)`, `ValueCodecSound`). VariableValue's own source is not part of this model.
- Playback.Executor: applying an operation to a value is a parameter that may throw. `HamOperation.Execute()` (Assets/Scripts/Timeline/HamOperation.cs:64-68) takes no argument and throws ArgumentException unconditionally; the model lets the instance's caller supply what an operation does.
- Predicates.Evaluate: the comparison of two values is the parameter `Comparer`; `VariableValue.Compare` is not part of this model.
- Events: the scene and character events carry ids. Assets/Addons/HAM/Scripts/HamTimelineInstance.cs:203-221 passes HamScene/HamCharacter objects to constructors that take ints, which does not compile as written; the model keeps the id and models the dictionary lookups (`this.timeline.Scenes[...]`, `this.timeline.Characters[...]`) as possible KeyNotFound throws.
- TimelineFormat: the Scene, Character and Variable wire layouts (id, then value, then name for a variable) are assumed; HamTimelineVariable with ID and Pack, and HamScene/HamCharacter with Pack, are not part of this model (Assets/Scripts/Timeline/HamTimelineVariable.cs is an older class without Pack).
- TimelineFormat.EmptyTimeline: a null Name is modelled as the empty string; the source's Pack of a null Name would throw.
- NodePlacement: Width, WidthOffset and the placements are exact reals, not 32-bit floats; rounding is not modelled.
- Timelines.Timeline.Unpack and Instances.TimelineInstance.Unpack: after a failed parse, the fields already overwritten are not described (the source leaves them partially updated; the model says only that Unpack failed).
- Dictionary enumeration order is a parameter (`Enumeration`, `VisitsAll`, `order`): the model proves the round trips for every order rather than fixing .NET's.
- Float Pack/Unpack (Assets/Addons/HAM/Scripts/Util/Serializer.cs:70-73, 110-114): no modelled entity stores a float.
- Save/Load to a file (Assets/Addons/HAM/Scripts/Timeline/HamTimeline.cs:11-24): file I/O; the model starts from the bytes.
- Instances.TimelineInstance.constructor: `HamTimeline.Load(path)` (Assets/Addons/HAM/Scripts/HamTimelineInstance.cs:79) is file I/O; the constructor takes the loaded TimelineData, the variable order and the comparison and execution parameters.
- OnTimelineEvent: the listener delegate is the sequence `emitted`, to which every raised event is appended.
- Debug.Log and Debug.LogError: logging only.
- Describe (Assets/Addons/HAM/Editor/HamNodePlacer.cs:65-75 and the node Describe methods in Assets/Addons/HAM/Scripts/Timeline/HamTimelineNode.cs): debugging text.
- `#if PLACER_DEBUG` blocks (Assets/Addons/HAM/Editor/HamNodePlacer.cs:117-119, 164-166): debug logging.
- NodePlacement.NodePlacer.GetNodePlacement: returns the tree of PlacementNodes together with the placements; returns `None` where the source throws (the OriginNode lookup, `Nodes[dids[j]]` KeyNotFound); requires `KeysMatch` (every node stored under its own ID).
- NodePlacement: PlacementNodes are id-keyed maps (a `Grove` value during discovery, stored in the `PlacementTree` class afterwards) instead of linked objects; parent and children are ids.
- NodePlacement.RefreshDepth: the unused `newDepth` argument is kept but plays no part.
- Timelines.Timeline.LinkNodes, Graphs.Link, Graphs.CanLinkCleanly, Playback.Advance and Instances.TimelineInstance.Advance: the C# defaults `int i = 0` (Assets/Addons/HAM/Scripts/Timeline/HamTimeline.cs:304, 329) and `int choice = -1` (Assets/Addons/HAM/Scripts/HamTimelineInstance.cs:92) are explicit arguments; a caller passes 0 or -1 where the source omits them.
- NodePlacement.NodePlacer.constructor: the default `attemptReparenting = true` is an explicit argument; the placer holds a TimelineData snapshot instead of a HamTimeline reference.
- NodePlacement.NodePlacer.GetNodePlacement: with re-parenting, the Depth of a node is not claimed to be its longest distance from the origin. ReParent (Assets/Addons/HAM/Editor/HamNodePlacer.cs:37-45, 124-127) is one relaxation step applied only when a node is met again, and can even re-depth the origin; the model proves only that every node sits at least a row below its parent and that its Depth is at least its breadth-first distance from the origin (some path reaches it in no more edges than its Depth). Without re-parenting the Depth is exactly the breadth-first distance.
- Predicates, operations and nodes are datatype values; `SetVariable`, `SetDescendant` and the Add methods return the updated value instead of changing an object in place. Aliasing of node objects between the dictionary and the instance is not modelled.
- Graphs.Sane: SanityCheck (Assets/Addons/HAM/Scripts/Timeline/HamTimeline.cs:374-446) only logs, so it is the predicate `Sane` instead of a method.
- Predicates.Label and Operations.Label: String.Format and ToString become string concatenation; the comparison's name, the operator's name and the value's label are parameters.
- The "unknown node type" branches (Assets/Addons/HAM/Scripts/HamTimelineInstance.cs:182-186, 255-259) cannot arise: the node type has four variants, and an unknown type byte is rejected when unpacking (NodePacking.UnknownTypeIsNull).
- Integer widths: ids and counts are `int32`; lists are `Many<T>` (at most int.MaxValue items), so `List.Add` past that fails; `IDCount++` wraps (Timelines.WrapInc).
