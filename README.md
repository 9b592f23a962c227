# Drawpile layer list, text message writer and pixel brush masks in Dafny

This project models four pieces of the Drawpile collaborative drawing client:

- **The text message writer** (`DP_TextWriter`) prints the recording format.
  - A message starts with `<context id> <name>`. Each argument follows inline as ` key=value`.
  - An argument that cannot stand inline is appended to a multi-line buffer: a string with whitespace, or base64 longer than 70 characters. Each of its lines is tagged `\t key=`.
  - The buffer is emitted as a `{ … }` block when the message is finished. An undo point adds a blank line.
  - The model is the class `TextWriter.Writer`. It has two fields: the text output so far, and the optional buffer. Each method is proved to append exactly the text its specification function gives.
  - Every argument format is proved to read back to what was written. This covers booleans, signed and unsigned decimals, `0x%04x` ids, ARGB colours, comma lists, flag names, multi-line strings and wrapped base64.
- **The layer list model** (`canvas::LayerListModel`) holds the layer tree as a flat, pre-ordered list of items with nested-set bounds (`left`, `right`).
  - The model is the class `LayerList.LayerListModel`. Its loops are methods proved against the specification functions in `LayerTree`, `LayerNames` and `LayerOrder`:
    - the id lookup and the parent search;
    - the sibling walk that answers `index()`;
    - the root count and the autoselection done by `setLayers`;
    - the search for a free layer id and for a free layer name;
    - the drag-and-drop reorder.
- **The layer list dock** (`LayerList` in `layerlistdock.cpp`) decides several things, modelled as pure functions in `LayerListDock` of the canvas state and the selection:
  - which controls are enabled;
  - whether the current layer can be drawn on;
  - the state of the lock button and the ACL flags byte;
  - the command batches it emits for add, duplicate, delete, merge and ACL change.
- **The pixel brush masks** (`makeRoundPixelBrushMask`, `makeSquarePixelBrushMask`) are modelled in `PixelBrush`.
  - The round mask fills a zeroed array row by row. It is proved equal to a row-wise specification.
  - Its pixel test is proved equal to the source's floating-point circle test, taken in exact arithmetic.
  - The mask is proved to be symmetric, non-empty and contained in the square mask.

Module layout:

| module | role |
|---|---|
| `Common` | byte-width integer types, `Option`, small sequence lemmas |
| `NumericText` | printf-style `%d`, `%u` and `%x` text with parsers and round trips |
| `Protocol` | the message kinds and flag constants the core emits |
| `TextWriter` | the writer class and the format it prints |
| `LayerTree` | `LayerListItem`, the tree shape and the autoselection rules |
| `LayerNames` | the "basename n" naming rule |
| `LayerOrder` | the (id, 0) pair list, `QVector::move`, `std::reverse` |
| `LayerList` | the `LayerListModel` class |
| `LayerListDock` | the dock's rules and batches |
| `PixelBrush` | the brush masks |

Behaviours of the code worth knowing:

- After a single layer titled "Layer" the next name is "Layer 1": no number is stripped and no numbered title is found (`LayerNames.SecondLayerName`).
- The header's doc comment and the code disagree on `getAvailableLayerId`; the model follows the code. The comment says it returns 0 only when all ids are taken (src/libclient/canvas/layerlist.h:146-150).
- The code also returns 0 for user 0 while id 0 is free, because that free id is 0 itself. `LayerList.LayerListModel.GetAvailableLayerId` states both cases.
- The dock tests a layer for being a group through `LayerListModel::IsGroupRole` (src/desktop/docks/layerlistdock.cpp:298, 343). That role is not among those the model declares (src/libclient/canvas/layerlist.h:102-108), and `data` does not answer it. The model reads it as the item's `group` flag.
- The dock's merge target, `below`, is the next sibling of the selection: the item at the following row under the same parent (src/desktop/docks/layerlistdock.cpp:340, 369). It is a parameter of the dock's rules.

The flag values are:

- LayerCreate GROUP = 1 and INTO = 2;
- LayerAttributes CENSOR = 1, FIXED = 2 and ISOLATED = 4;
- the ACL all-locked bit = 0x80;
- access tiers 0 to 3.

They come from the Drawpile message definitions, which are not part of this model.

## Model

| member | source | states |
|---|---|---|
| `TextWriter.Writer.constructor` | libmsg/dpmsg/text_writer.c:43-49 | a new writer has written nothing and has no multi-line buffer |
| `TextWriter.Writer.WriteHeader` | libmsg/dpmsg/text_writer.c:61-118 | writes `!key=value` lines for the header fields in order, then a blank line. It succeeds exactly when every value is a string, number, boolean or null. On failure it stops at the first other value |
| `TextWriter.Writer.StartMessage` | libmsg/dpmsg/text_writer.c:121-127 | appends the decimal context id, a space and the message name; the buffer is untouched |
| `TextWriter.Writer.FinishMessage` | libmsg/dpmsg/text_writer.c:129-145 | with a non-empty buffer, appends ` {`, the buffer and `\n}\n` and empties the buffer; otherwise appends `\n`. An undo point appends one more `\n` |
| `TextWriter.FinishEndsLine` | libmsg/dpmsg/text_writer.c:129-145 | a finished message always ends with a newline. It ends with a blank line exactly for undo points |
| `TextWriter.Writer.WriteBool` | libmsg/dpmsg/text_writer.c:161-167 | appends ` key=true` or ` key=false` |
| `TextWriter.BoolRoundTrip` | libmsg/dpmsg/text_writer.c:161-167 | the boolean text parses back to the boolean |
| `TextWriter.Writer.WriteInt` | libmsg/dpmsg/text_writer.c:169-174 | appends ` key=` and the signed decimal of the value |
| `NumericText.SignedRoundTrip` | libmsg/dpmsg/text_writer.c:169-174 | `%d` text, with a minus sign for negatives, parses back to the same integer |
| `TextWriter.Writer.WriteUint` | libmsg/dpmsg/text_writer.c:176-182 | appends ` key=` and the unsigned decimal of the value |
| `NumericText.Decimal` | libmsg/dpmsg/text_writer.c:176-182 | `%u` text is a non-empty digit string with no leading zero except for 0 itself |
| `NumericText.DecimalRoundTrip` | libmsg/dpmsg/text_writer.c:176-182 | `%u` text parses back to the same number |
| `TextWriter.ContainsWhitespace` | libmsg/dpmsg/text_writer.c:192-200 | true exactly when some character is one of C's `isspace` characters |
| `TextWriter.Writer.BufferLine` | libmsg/dpmsg/text_writer.c:202-207 | appends `\n\tkey=segment` to the buffer; the output is untouched |
| `TextWriter.Writer.BufferMultilineArgument` | libmsg/dpmsg/text_writer.c:209-237 | creates the buffer if absent. Appends one tagged line per newline-separated segment of the value; the output is untouched |
| `TextWriter.SplitJoin` | libmsg/dpmsg/text_writer.c:209-237 | splitting newline-free parts joined by newlines gives the parts back |
| `TextWriter.JoinSplit` | libmsg/dpmsg/text_writer.c:209-237 | joining the segments of a value with newlines gives the value back |
| `TextWriter.ContinuationRoundTrip` | libmsg/dpmsg/text_writer.c:202-237 | a block of tagged continuation lines reads back to its segments when neither the key nor a segment holds a newline |
| `TextWriter.MultilineStringRoundTrip` | libmsg/dpmsg/text_writer.c:209-251 | a buffered string reads back to its segments, and joining these with newlines gives the string |
| `TextWriter.Writer.WriteString` | libmsg/dpmsg/text_writer.c:239-251 | a value with whitespace goes to the buffer, one tagged line per segment. Any other value is appended inline as ` key=value` |
| `TextWriter.Writer.WriteArgbColor` | libmsg/dpmsg/text_writer.c:256-267 | appends ` key=#rrggbb` for opaque colours and ` key=#aarrggbb` otherwise |
| `TextWriter.ColorRoundTrip` | libmsg/dpmsg/text_writer.c:256-267 | the colour text parses back to the same ARGB value, and has 7 characters exactly when alpha is 0xff |
| `NumericText.HexPaddedRoundTrip` | libmsg/dpmsg/text_writer.c:256-267 | zero-padded lowercase hex parses back to the number |
| `NumericText.HexPaddedWidth` | libmsg/dpmsg/text_writer.c:256-267 | padded hex of a number below 16^width is exactly `width` digits long |
| `TextWriter.Writer.WriteBlendMode` | libmsg/dpmsg/text_writer.c:269-276 | writes the blend mode's name as a string argument |
| `TextWriter.Writer.BufferWrappedArgument` | libmsg/dpmsg/text_writer.c:278-307 | creates the buffer if absent. Appends the value cut into lines of the line width, each tagged with the key; the output is untouched |
| `TextWriter.ChunksConcat` | libmsg/dpmsg/text_writer.c:278-307 | the wrapped lines concatenate back to the text |
| `TextWriter.ChunkSizes` | libmsg/dpmsg/text_writer.c:278-307 | every wrapped line but the last is exactly the line width long; the last is 1 to width long |
| `TextWriter.WrappedBase64RoundTrip` | libmsg/dpmsg/text_writer.c:278-330 | the wrapped block reads back to its lines, and these concatenate to the encoded text |
| `TextWriter.Writer.WriteBase64` | libmsg/dpmsg/text_writer.c:309-330 | an empty payload writes ` key=`. Encoded text of at most 70 characters is written inline. Longer text is wrapped into the buffer at 70 characters |
| `TextWriter.SetNamesMembers` | libmsg/dpmsg/text_writer.c:332-359 | a flag's name is listed exactly when its mask meets the value, in argument order. Nothing is listed only when no mask meets it |
| `TextWriter.Writer.AppendFlagName` | libmsg/dpmsg/text_writer.c:332-359 | the first set flag appends ` key=` and its name, and each later one a comma and its name; the buffer is untouched |
| `TextWriter.Writer.WriteFlags` | libmsg/dpmsg/text_writer.c:332-359 | appends ` key=` and the comma-separated names of the set flags, or nothing at all when none is set |
| `TextWriter.Writer.WriteId` | libmsg/dpmsg/text_writer.c:361-366 | appends ` key=` and `0x` followed by the value as at least four lowercase hex digits |
| `TextWriter.IdRoundTrip` | libmsg/dpmsg/text_writer.c:361-366 | the id text is `0x` and hex digits that read back to the value taken as unsigned 32-bit; a 16-bit id is exactly six characters |
| `TextWriter.Writer.WriteList` | libmsg/dpmsg/text_writer.c:368-384 | appends ` key=`, then the rendered values separated by commas |
| `TextWriter.Writer.WriteIdList` | libmsg/dpmsg/text_writer.c:387-391 | a list of `0x%04x` ids |
| `TextWriter.IdListRoundTrip` | libmsg/dpmsg/text_writer.c:368-391 | splitting an id list at its commas gives each id's text back, each reading back to its value |
| `TextWriter.Writer.WriteUintList` | libmsg/dpmsg/text_writer.c:393-409 | a list of unsigned decimals; 8- and 16-bit lists are the same with narrower values |
| `TextWriter.UintListRoundTrip` | libmsg/dpmsg/text_writer.c:368-409 | splitting a decimal list at its commas gives each value's digits back, each reading back to its value |
| `LayerTree.CreatorId` | src/libclient/canvas/layerlist.h:87 | the creator is the high byte of the 16-bit id |
| `LayerTree.CreatorOfComposedId` | src/libclient/canvas/layerlist.h:87 | an id composed from user u and index i is 16-bit and has creator u |
| `LayerTree.AttributeFlags` | src/libclient/canvas/layerlist.cpp:384-390 | the attribute flags byte: the CENSOR, FIXED and ISOLATED bits or-ed together. It is 0 exactly when the layer is neither censored, fixed nor isolated |
| `LayerTree.AttributeFlagsDecode` | src/libclient/canvas/layerlist.cpp:384-390 | the CENSOR, FIXED and ISOLATED bits are set exactly when the item has those properties; no other bit is set |
| `LayerList.LayerListModel.constructor` | src/libclient/canvas/layerlist.cpp:31-35 | a new model is empty, with no root rows, no default layer, autoselect-any on and no ACL state |
| `LayerList.LayerListModel.SetAclState` | src/libclient/canvas/layerlist.h:129 | sets the local user (or none) and changes nothing else |
| `LayerList.LayerListModel.SetAutoselectAny` | src/libclient/canvas/layerlist.h:137 | sets the autoselect-any switch and changes nothing else |
| `LayerList.LayerListModel.SetDefaultLayer` | src/libclient/canvas/layerlist.cpp:301-315 | the body is compiled out, so the default layer is unchanged |
| `LayerTree.PositionOf` | src/libclient/canvas/layerlist.cpp:140-146 | the first position holding the id, or -1 exactly when no item has it |
| `LayerList.LayerListModel.IndexOf` | src/libclient/canvas/layerlist.cpp:140-146 | the scan returns the first position of the id, or -1 |
| `LayerList.LayerListModel.LayerIndex` | src/libclient/canvas/layerlist.cpp:148-155 | an index exists exactly when the id is present. It points at the id's first item, and its row is that item's index in its parent |
| `LayerList.LayerListModel.RowCount` | src/libclient/canvas/layerlist.cpp:157-164 | a parent's child count, or the root count. In a well-formed tree the root count is exactly the number of rows reachable by walking siblings from the first item |
| `LayerTree.ParentPos` | src/libclient/canvas/layerlist.cpp:172-187 | the nearest preceding item whose right bound exceeds the item's, or none when no preceding item has one |
| `LayerTree.ParentIsInnermostAncestor` | src/libclient/canvas/layerlist.cpp:172-187 | in a well-formed tree the search finds nothing exactly when no item encloses the item. Otherwise it finds the innermost enclosing item |
| `LayerList.LayerListModel.Parent` | src/libclient/canvas/layerlist.cpp:172-187 | the backward scan returns the parent search's result with that item's row. In a well-formed tree this is the innermost enclosing group, or none at the root |
| `LayerTree.ScanFrom` | src/libclient/canvas/layerlist.cpp:214-215 | the first position at or after the cursor whose left bound reaches `next` |
| `LayerTree.Walk` | src/libclient/canvas/layerlist.cpp:210-222 | walking k siblings from an item ends at or after it, or fails when a gap in the bounds is met |
| `LayerList.LayerListModel.WalkSiblings` | src/libclient/canvas/layerlist.cpp:210-222 | the nested loops compute exactly the sibling walk |
| `LayerList.LayerListModel.SkipDescendants` | src/libclient/canvas/layerlist.cpp:214-215 | the inner loop skips to the first item whose left bound reaches `next`, or to the end of the list |
| `LayerList.LayerListModel.Index` | src/libclient/canvas/layerlist.cpp:189-236 | no index for an empty list, a negative row, a column other than 0 or a row past the child or root count. Otherwise the sibling walk from the first child or the first item decides it. With consistent row numbers the found item's index in its parent is the row. At the root of a well-formed tree an index exists exactly for the rows below the root count |
| `LayerTree.WalkRelIndex` | src/libclient/canvas/layerlist.cpp:233 | when row numbers are consistent, k steps of the walk reach the item whose index in its parent is k more |
| `LayerTree.RootCount` | src/libclient/canvas/layerlist.cpp:279-290 | the root count is 0 exactly for the empty list |
| `LayerTree.RootCountBound` | src/libclient/canvas/layerlist.cpp:279-290 | there are never more root rows than items |
| `LayerTree.RootRowsReachable` | src/libclient/canvas/layerlist.cpp:189-236 | in a non-empty well-formed tree, a root row can be walked to exactly when it is below the root count |
| `LayerTree.FirstSelectable` | src/libclient/canvas/layerlist.cpp:245-277 | the first new item that the autoselection rules accept, or none when no item is accepted |
| `LayerTree.Autoselect` | src/libclient/canvas/layerlist.cpp:241-277 | the id `setLayers` asks to select: only when the list grew, the id of the first new item that qualifies. A picked id is in the new list and not in the old one |
| `LayerTree.AutoselectChoice` | src/libclient/canvas/layerlist.cpp:245-277 | autoselection picks only when the list grew. It picks the first item that is new and created by the local user, or that meets the autoselect-any rule on the default layer. It picks nothing exactly when no such item exists |
| `LayerTree.AutoselectAnyPicksFirstNew` | src/libclient/canvas/layerlist.cpp:259-271 | with autoselect-any on and no default layer, the first new layer is selected |
| `LayerList.LayerListModel.SetLayers` | src/libclient/canvas/layerlist.cpp:238-299 | stores the items and their root count, leaves the rest of the state unchanged, and reports the autoselection over the old and new items |
| `LayerList.TakenIdsMembers` | src/libclient/canvas/layerlist.cpp:338-343 | an id is taken exactly when some item has it and it belongs to the local user's range |
| `LayerList.AvailableLayerId` | src/libclient/canvas/layerlist.cpp:334-352 | the lowest id of user u's range that no item has, or 0. A non-zero result is owned by u and free |
| `LayerList.FreeIdFromSpec` | src/libclient/canvas/layerlist.cpp:345-351 | the search returns the lowest free id of the user's range at or after the start, or 0 when none is free |
| `LayerList.LayerListModel.GetAvailableLayerId` | src/libclient/canvas/layerlist.cpp:334-352 | returns the lowest id of the local user's range that no layer has, or 0. A non-zero result is owned by the user, free, and above only taken ids. 0 means the range is full, or that user 0's free id is 0 itself |
| `LayerNames.TrimStart` | src/libclient/canvas/layerlist.cpp:365 | the result is a suffix of the text; every character dropped before it is whitespace, and it starts with a non-space unless empty |
| `LayerNames.TrimEnd` | src/libclient/canvas/layerlist.cpp:365 | the result is a prefix of the text; every character dropped after it is whitespace, and it ends with a non-space unless empty |
| `LayerNames.LeadingSpaces` | src/libclient/canvas/layerlist.cpp:365 | the count of leading characters that trimming drops: all of them are whitespace, and the rest of the text is what remains after trimming the start |
| `LayerNames.Trimmed` | src/libclient/canvas/layerlist.cpp:365 | `QString::trimmed`: the result is the slice of the text that starts right after the leading whitespace, and every character before and after that slice is whitespace |
| `LayerNames.TrimmedEnds` | src/libclient/canvas/layerlist.cpp:365 | a trimmed name is empty or starts and ends with a non-space |
| `LayerNames.Stem` | src/libclient/canvas/layerlist.cpp:361-366 | the base name with its trailing number removed and the rest trimmed, or the base name itself when it has no trailing number; never longer than the base name |
| `LayerNames.RegexSubject` | src/libclient/canvas/layerlist.cpp:361 | `$` also matches before one final newline, so the matched text is the title or the title without that newline |
| `LayerNames.TrailingDigitCount` | src/libclient/canvas/layerlist.cpp:361-366 | the length of the run of digits at the end, preceded by a non-digit or the start |
| `LayerNames.Captured` | src/libclient/canvas/layerlist.cpp:375 | the captured suffix is all digits, as long as the trailing run |
| `LayerNames.ToInt` | src/libclient/canvas/layerlist.cpp:375 | `toInt` gives the decimal value, or 0 when the value does not fit in an int |
| `LayerList.TitleSuffix` | src/libclient/canvas/layerlist.cpp:372-377 | a title contributes its trailing number exactly when it has one and starts with the stem |
| `LayerNames.MaxSuffixIsMaximum` | src/libclient/canvas/layerlist.cpp:369-378 | the largest suffix is at most INT_MAX and at least every contribution of a numbered title starting with the stem. It is 0 or one of those contributions |
| `LayerList.LargestSuffix` | src/libclient/canvas/layerlist.cpp:369-378 | the loop computes the largest suffix |
| `LayerNames.NextSuffix` | src/libclient/canvas/layerlist.cpp:381 | `suffix + 1` as a 32-bit `int`: below INT_MAX it is one more, and INT_MAX wraps to INT_MIN |
| `LayerNames.AvailableName` | src/libclient/canvas/layerlist.cpp:354-382 | the generated name: the stem, a space and the signed decimal of the next suffix, so it starts with the stem and a space and has at least one character more |
| `LayerList.LayerListModel.GetAvailableLayerName` | src/libclient/canvas/layerlist.cpp:354-382 | returns the stem, a space and the signed decimal of one more than the largest suffix, wrapping at INT_MAX. While that suffix is below INT_MAX, no layer has the name |
| `LayerNames.WrappedName` | src/libclient/canvas/layerlist.cpp:370-381 | once some title starting with the stem carries the number 2147483647, the generated name is the stem followed by " -2147483648" |
| `LayerNames.NameIsFresh` | src/libclient/canvas/layerlist.cpp:354-382 | the generated name differs from every existing title, as long as the largest suffix is below INT_MAX |
| `LayerNames.FreshForStem` | src/libclient/canvas/layerlist.cpp:361-378 | for any stem, "stem m+1" equals no title when m is the largest suffix of the titles starting with that stem |
| `LayerNames.GeneratedContribution` | src/libclient/canvas/layerlist.cpp:361-378 | a generated name "stem n" contributes exactly n when it is read back |
| `LayerNames.StemOfNumbered` | src/libclient/canvas/layerlist.cpp:361-366 | stripping the number from "p digits" gives back p, for p that is already trimmed and does not end in a digit |
| `LayerNames.SecondLayerName` | src/libclient/canvas/layerlist.cpp:354-382 | with a single layer titled "Layer", the next name is "Layer 1" |
| `LayerOrder.PairList` | src/libclient/canvas/layerlist.cpp:115-119 | each id followed by a 0, twice as long as the id list |
| `LayerList.PairListOfItems` | src/libclient/canvas/layerlist.cpp:115-119 | a list holding each item's id at even positions and 0 at odd ones is the pair list of the ids |
| `LayerList.LayerListModel.PairLayers` | src/libclient/canvas/layerlist.cpp:115-119 | the loop builds the pair list of the item ids |
| `LayerOrder.Move` | src/libclient/canvas/layerlist.cpp:123-124 | `QVector::move(from, to)`: the list with the element at `from` rotated to `to`, of the same length |
| `LayerOrder.MoveLands` | src/libclient/canvas/layerlist.cpp:123 | after `move(from, to)` the moved element is at `to` |
| `LayerOrder.MoveIsRemoveInsert` | src/libclient/canvas/layerlist.cpp:123 | `move(from, to)` equals removing the element at `from` and inserting it at `to` |
| `LayerOrder.MovePermutes` | src/libclient/canvas/layerlist.cpp:123-124 | a move keeps the same elements, counted with multiplicity |
| `LayerOrder.Reversed` | src/libclient/canvas/layerlist.cpp:130 | `std::reverse`: the list back to front, of the same length |
| `LayerOrder.ReversedAt` | src/libclient/canvas/layerlist.cpp:130 | position k of the reversed list holds the element k places from the end |
| `LayerOrder.ReversedPermutes` | src/libclient/canvas/layerlist.cpp:130 | reversing keeps the same elements |
| `LayerOrder.OrderAsWritten` | src/libclient/canvas/layerlist.cpp:115-130 | the order the code sends: the pair list, the id moved, then the entry at the id's old 0 slot moved, then reversed; twice as long as the id list |
| `LayerOrder.OrderCorrected` | src/libclient/canvas/layerlist.cpp:115-130 | the order with the two moves ordered by direction, the 0 first for a move to a higher index; twice as long as the id list |
| `LayerOrder.AsWrittenPermutes` | src/libclient/canvas/layerlist.cpp:115-130 | the order sent by the code as written holds the same ids and zeros as the pair list |
| `LayerOrder.AsWrittenAgreesDownward` | src/libclient/canvas/layerlist.cpp:106-130 | for a move to the same or a lower index, the order as written is the reversed pair list of the reordered ids |
| `LayerOrder.UpwardMoveBreaksPairs` | src/libclient/canvas/layerlist.cpp:123-124 | for ids [1,2,3] moved from 0 to adjusted index 1, the order as written is not the reversed pair list of the reordered ids |
| `LayerOrder.UpwardMoveAsWritten` | src/libclient/canvas/layerlist.cpp:115-130 | that move as written sends [0,3,2,0,1,0] |
| `LayerOrder.UpwardMoveCorrected` | src/libclient/canvas/layerlist.cpp:115-130 | that move with the moves ordered for an upward move sends [0,3,0,1,0,2] |
| `LayerOrder.CorrectedOrderIsReorderedPairs` | src/libclient/canvas/layerlist.cpp:106-130 | with the two moves ordered by direction, the order sent is always the reversed pair list of the reordered ids |
| `LayerList.LayerListModel.LayersAsWritten` | src/libclient/canvas/layerlist.cpp:115-130 | the list built by the code as written is the order as written, a permutation of the pair list |
| `LayerList.LayerListModel.LayersCorrected` | src/libclient/canvas/layerlist.cpp:115-130 | with the moves ordered by direction, the list built is the reversed pair list of the reordered ids |
| `LayerList.LayerListModel.HandleMoveLayerAsWritten` | src/libclient/canvas/layerlist.cpp:97-138 | an order is sent exactly when there are two or more layers and both indices are in range. It is the code's order, a permutation of the pair list |
| `LayerList.LayerListModel.HandleMoveLayer` | src/libclient/canvas/layerlist.cpp:97-138 | an order is sent exactly when there are two or more layers and both indices are in range. It is the reordered ids, bottom first, each followed by 0, with the moved layer at the adjusted index |
| `LayerList.LayerListModel.DropMimeData` | src/libclient/canvas/layerlist.cpp:79-95 | a drop from another source sends nothing. A drop of one of this model's layers is sent exactly when `handleMoveLayer` accepts its position and the drop row, the empty area standing for the row past the last. The order sent is the order as written for those indices, a permutation of the pair list. For a drop at or above the layer's row it is the reversed pair list of the reordered ids |
| `LayerList.LayerListModel.DropMimeDataCorrected` | src/libclient/canvas/layerlist.cpp:79-95 | the same drop through the corrected move: every accepted drop sends the reversed pair list of the reordered ids, with the dragged layer at the adjusted drop row |
| `LayerListDock.CanAdd` | src/desktop/docks/layerlistdock.cpp:191-195 | layers and groups can be added exactly with a canvas and the edit-all or own-layers permission |
| `LayerListDock.SelectionEnabled` | src/desktop/docks/layerlistdock.cpp:203 | the selection controls are on exactly for a selected layer that the user may edit: edit-all, or own-layers on a layer whose id's high byte is the local user |
| `LayerListDock.CanMergeCurrent` | src/desktop/docks/layerlistdock.cpp:337-346 | merging is possible exactly when there is a selection and a next sibling, and that sibling is neither a group nor locked |
| `LayerListDock.LockedControls` | src/desktop/docks/layerlistdock.cpp:188-213 | add-layer and add-group follow the add permission. The lock, duplicate, properties and delete controls follow the selection rule. Merge also needs a mergeable next sibling |
| `LayerListDock.ControlsAreNested` | src/desktop/docks/layerlistdock.cpp:188-213 | delete implies add and merge implies delete. Everything is off without a canvas, and every selection control is off without a selection |
| `LayerListDock.PropertiesEditable` | src/desktop/docks/layerlistdock.cpp:417-423 | the properties dialog is editable with edit-all, or with own-layers on a layer whose id's second byte is the local user |
| `LayerListDock.SelectionRuleMatchesProperties` | src/desktop/docks/layerlistdock.cpp:203 | for 16-bit ids, the selection rule is the properties rule plus a non-zero id, and both agree with the layer's creator |
| `LayerListDock.IsCurrentLayerLocked` | src/desktop/docks/layerlistdock.cpp:478-493 | the current layer is locked exactly when it is hidden, a group, ACL-locked, or censored while censoring is on; never without a canvas or a selection |
| `LayerListDock.CensorFlagIgnoredWhenNotCensoring` | src/desktop/docks/layerlistdock.cpp:489 | with censoring off, the censor flag does not change whether the layer is locked |
| `LayerListDock.AclFlags` | src/desktop/docks/layerlistdock.cpp:261 | the ACL flags byte: the all-locked bit when locking, or-ed with the tier; bits 2 to 6 are never set |
| `LayerListDock.AclFlagsDecode` | src/desktop/docks/layerlistdock.cpp:261 | the flags byte has the all-locked bit exactly when locking and the tier in its low seven bits. Different lock and tier pairs give different bytes |
| `LayerListDock.LockButtonChecked` | src/desktop/docks/layerlistdock.cpp:530 | the lock button is unchecked exactly for an unlocked, guest-tier entry with no exclusive users |
| `LayerListDock.LockButtonMatchesAclFlags` | src/desktop/docks/layerlistdock.cpp:261-530 | the button is unchecked exactly when the entry's flags byte is that of the unlock command and no user is singled out |
| `LayerListDock.LockStatusChanged` | src/desktop/docks/layerlistdock.cpp:526-535 | only a change to the selected layer updates the button, to its checked rule |
| `LayerListDock.ChangeLayerAcl` | src/desktop/docks/layerlistdock.cpp:256-266 | without a selection nothing is sent. Otherwise one ACL message goes from the local user for the selected layer, with the given exclusive users and the lock bit and tier in its flags |
| `LayerListDock.CreateFlags` | src/desktop/docks/layerlistdock.cpp:295-300 | the GROUP bit is set exactly for a group and the INTO bit exactly for an expanded target group; nothing else is set |
| `LayerListDock.AddLayerOrGroup` | src/desktop/docks/layerlistdock.cpp:281-311 | the add batch: nothing exactly when no id is free, otherwise an undo point and a create of the free id, placed at the selection and titled with the next free name |
| `LayerListDock.AddLayerOrGroupBatch` | src/desktop/docks/layerlistdock.cpp:281-311 | nothing is sent exactly when no id is free. Otherwise an undo point and a create of the free id, owned by the user and new, with no source and no fill |
| `LayerListDock.AddLayerOrGroupPlacement` | src/desktop/docks/layerlistdock.cpp:292-303 | the target is the selected layer if it exists, else 0. GROUP marks groups. INTO is set exactly when the selected layer is a group expanded in the view |
| `LayerListDock.AddLayerOrGroupTitle` | src/desktop/docks/layerlistdock.cpp:304-309 | the new layer's title differs from every existing title, as long as the largest suffix is below INT_MAX |
| `LayerListDock.DuplicateLayer` | src/desktop/docks/layerlistdock.cpp:313-335 | the duplicate batch: nothing exactly when no id is free, otherwise an undo point and a create copying the selected layer, with the next free id and name |
| `LayerListDock.DuplicateLayerBatch` | src/desktop/docks/layerlistdock.cpp:313-335 | nothing is sent exactly when no id is free. Otherwise an undo point and a create of a new id of the user, copying the selected layer and placed at it, with no flags and a fresh title |
| `LayerListDock.DeleteSelected` | src/desktop/docks/layerlistdock.cpp:348-361 | without a selection nothing is sent. Otherwise an undo point and a delete of the selected layer with no merge target |
| `LayerListDock.MergeSelected` | src/desktop/docks/layerlistdock.cpp:363-381 | without a selection or a next sibling nothing is sent. Otherwise an undo point and a delete of the selected layer merged into that sibling |
| `LayerListDock.MergeIsDeleteWithTarget` | src/desktop/docks/layerlistdock.cpp:348-381 | whenever a merge sends a batch, a delete would too, and the two differ only in the merge target |
| `LayerListDock.EnabledMergeEmits` | src/desktop/docks/layerlistdock.cpp:211 | when the merge action is enabled, merging sends an undoable batch into a layer that is neither locked nor a group |
| `PixelBrush.CoveredIsScaledTest` | src/libclient/brushes/pixelbrushpainter.cpp:28-40 | the integer pixel test is exactly the source's test of the squared offsets from the radius against the squared radius, taken in exact arithmetic |
| `PixelBrush.MakeRoundPixelBrushMask` | src/libclient/brushes/pixelbrushpainter.cpp:26-45 | the array filled row by row equals the row-wise mask specification |
| `PixelBrush.RowFill` | src/libclient/brushes/pixelbrushpainter.cpp:37-42 | one pass of the inner loop fills the next row and leaves the rest of the array zero |
| `PixelBrush.RoundMaskAt` | src/libclient/brushes/pixelbrushpainter.cpp:31-42 | the byte at y*diameter+x is the opacity exactly when the pixel is inside the circle, and 0 otherwise |
| `PixelBrush.RoundMaskBytes` | src/libclient/brushes/pixelbrushpainter.cpp:31-42 | the round mask holds diameter² bytes, each 0 or the opacity |
| `PixelBrush.RoundMaskSymmetric` | src/libclient/brushes/pixelbrushpainter.cpp:35-41 | the round mask is symmetric under horizontal and vertical mirroring and transposition |
| `PixelBrush.RoundMaskNotEmpty` | src/libclient/brushes/pixelbrushpainter.cpp:35-41 | for a positive diameter the centre pixel carries the opacity |
| `PixelBrush.MakeSquarePixelBrushMask` | src/libclient/brushes/pixelbrushpainter.cpp:47-50 | the square mask holds diameter² bytes, all equal to the opacity |
| `PixelBrush.ZeroDiameterMasks` | src/libclient/brushes/pixelbrushpainter.cpp:26-50 | both masks of diameter 0 are empty |
| `PixelBrush.RoundWithinSquare` | src/libclient/brushes/pixelbrushpainter.cpp:26-50 | the round mask has the square mask's size, and every pixel it covers has the square mask's value |

## Left out

- Output failures are not modelled: every `DP_Output` write succeeds. Only the header can fail, on an unrepresentable value.
- `DP_text_writer_free` and the lazily opened memory output behind the buffer are not modelled. The buffer is a string field, `None` until first used.
- `DP_text_writer_write_decimal` is not modelled. Floating-point `%f` text is out of scope, so JSON numbers in the header come as already formatted text.
- The raw write, print and format calls (`raw_write`, `raw_print`, `raw_format`) only forward to the output sink.
- `TextWriter.Writer.WriteBase64` takes the encoded text as a parameter, because the base64 encoder is not part of this model.
- `TextWriter.Writer.WriteBlendMode` takes the SVG name as a parameter, because the blend-mode name table is not part of this model.
- `TextWriter.Writer.WriteHeader` takes the header as a list of fields, because the JSON object accessors are not part of this model.
- Strings are sequences of characters. The source's NUL-terminated C strings and UTF-8 byte lengths are not modelled.
- `TextWriter.Writer.WriteInt` does not model C's `int` beyond the 32-bit range of its parameter type.
- `LayerList.LayerListModel.Index` excludes, by its requires, a parent whose `children` count is positive while it is the last item. The source then reads past the end of the list with `m_items.at(cursor)` (src/libclient/canvas/layerlist.cpp:201-207). This only happens when the `children` counts disagree with the list.
- `TextWriter.Writer.WriteList` takes the list as a sequence, so the count is its length and never negative. With a negative count, `WRITE_LIST` would still write ` key=` and the first element (libmsg/dpmsg/text_writer.c:372-381).
- `LayerListDock.LockedControls` gives every control's state. In the source only the lock button always follows it; the add, duplicate, properties, delete and merge actions are updated only when the dock has edit actions (src/desktop/docks/layerlistdock.cpp:196-211).
- `LayerList.LayerListModel.SetLayers` does not model the Qt reset signals. It returns the autoselected id instead of emitting `autoSelectRequest`.
- `LayerList.LayerListModel.GetAvailableLayerName`: `suffix + 1` overflows a C++ `int` when some title carries the number 2147483647. Signed overflow is undefined behaviour in C++; the model takes the two's-complement wrap to -2147483648 (`LayerNames.NextSuffix`), and the name is promised fresh only while the largest suffix is below INT_MAX.
- `LayerList.LayerListModel.HandleMoveLayer` and `HandleMoveLayerAsWritten` return the message instead of emitting it. They do not model the log output.
- `LayerList.LayerListModel.DropMimeData` does not model its `false` return value or the MIME type check. Whether the drop comes from this model is a parameter.
- The `QVector::move` and `std::reverse` calls on the order being built are modelled as functions on sequences, not as updates in place.
- `setLayerGetter` is not modelled. It stores a callback that only the MIME data uses to fetch layer images.
- `data`, `flags`, `columnCount`, `mimeData` and the other Qt view plumbing of `LayerListModel` are not modelled. They only present items to the view.
- The ACL state and the paint engine are plain inputs: the local user, the two feature permissions, the set of locked layers and whether censoring is on.
- The dock's stateful slots are not modelled. These are `selectionChanged`, `updateUiFromSelection`, `beforeLayerReset`, `afterLayerReset`, `setCanvas`, `selectLayer` and `censorSelected`. They only keep the selected id and the widgets in step with the rules above.
- The dock's base names are the untranslated "Layer" and "Group". Translation through `tr()` is not modelled.
- `LayerListDock.PropertiesEditable` takes the id as `int`. `LayerListDock.SelectionEnabled` shifts the id right by eight without masking, as the source does. The two agree for 16-bit ids.
- `PixelBrush.MakeRoundPixelBrushMask` and `PixelBrush.MakeSquarePixelBrushMask` take the size as the exact square of the diameter. In the source `square(diameter)` is an `int` product, which overflows for diameters above 46340 (src/libclient/brushes/pixelbrushpainter.cpp:31, 49).
- `PixelBrush.CoveredIsScaledTest` compares with the source's double-precision test taken exactly. Rounding of `qreal` for huge diameters is not modelled.
- `PixelBrush.MakeSquarePixelBrushMask` is a function, because the source fills a vector by its constructor and runs no loop.

## Findings

| source | as written | input that shows it | evidently intended | confidence | as-written member | corrected member |
|---|---|---|---|---|---|---|
| src/libclient/canvas/layerlist.cpp:123-124 | `handleMoveLayer` moves the id slot first and its 0 slot second. For a move to a higher index, the first move shifts the 0 slot, so the second move takes a neighbour's id instead of the 0 | three layers with ids [1,2,3], dragged from row 0 to row 2, so the adjusted index is 1. The order sent is [0,3,2,0,1,0], which pairs id 3 with id 2 | the reordered ids [2,1,3] sent bottom first with a 0 after each: [0,3,0,1,0,2]. For an upward move the 0 slot has to be moved first | not executed | `LayerOrder.UpwardMoveBreaksPairs`, `LayerList.LayerListModel.HandleMoveLayerAsWritten`, `LayerList.LayerListModel.DropMimeData` | `LayerOrder.CorrectedOrderIsReorderedPairs`, `LayerList.LayerListModel.HandleMoveLayer`, `LayerList.LayerListModel.DropMimeDataCorrected` |
