# Column vector batches of the ORC C++ reader

This project models `c++/src/orc/Vector.cc` of the ORC C++ library. The file covers:

- the column vector batches a reader fills with rows: the base batch, which holds a capacity, a row count, null indicators and a null flag;
- the concrete kinds: long, double, string, struct, list, map, union, decimal64 and decimal128;
- their constructors, their grow-only `resize`, their diagnostic `toString`, and the destructors of the composite kinds;
- the `Decimal` value and its constructor from a literal such as `"12.5"`.

Layout:

- `buffers.dfy` (`Buffers`): the element types of the typed buffers, and how a pool-backed buffer grows.
- `numerals.dfy` (`Numerals`): the decimal rendering of a count, as a stream writes it, with its inverse.
- `descriptions.dfy` (`Descriptions`): the `toString` format of every kind, as pure functions of the counts and the children's texts. It proves that each text determines its counts and, for composite kinds, the joined text of its children, and that children appear in order. It also holds the two appending loops of the struct and union `toString`.
- `vector.dfy` (`Vector`): one class `ColumnVectorBatch` stands for the whole C++ hierarchy.
  - The kind, and the buffers and child batches only that kind owns, live in the `variant` field, so a struct or union can hold children of any kind.
  - The ghost `Repr` footprint and `Valid()` describe the tree of batches. Struct and union children are owned exclusively. List and map children only lie strictly below their parent.
  - Each C++ `resize` override is a method with the contract `ResizedTo`, and `Resize` dispatches on the kind the way the virtual call does.
  - `Describe()` is the text a batch renders, and `ToString` is proved to return it.
- `decimal.dfy` (`Decimals`): `Decimal` as value and scale, and the string constructor. The constructor keeps the scale exactly as the code computes it (see Findings), next to a corrected version.

## Model

| member | source | states |
|---|---|---|
| Buffers.Grown | c++/src/orc/Vector.cc:43-48 | a grown buffer has the requested length, keeps every old entry at its index, and holds the fill value in the new entries |
| Buffers.Allocated | c++/src/orc/Vector.cc:29-35 | a buffer allocated for `cap` entries has `cap` entries |
| Numerals.NatToString | c++/src/orc/Vector.cc:62 | a streamed count is a nonempty run of decimal digits without a leading zero (except for zero itself), and it is one digit exactly when the count is below ten |
| Numerals.ValueOfNatToString | c++/src/orc/Vector.cc:62 | reading the streamed digits back gives the count that was written |
| Numerals.NatToStringInjective | c++/src/orc/Vector.cc:62 | different counts never stream to the same text |
| Descriptions.Long | c++/src/orc/Vector.cc:60-64 | the long batch's text opens with "Long vector <" and closes with ">" |
| Descriptions.Double | c++/src/orc/Vector.cc:83-87 | the double batch's text opens with "Double vector <" and closes with ">" |
| Descriptions.Bytes | c++/src/orc/Vector.cc:107-111 | the string batch's text opens with "Byte vector <" and closes with ">" |
| Descriptions.Decimal64 | c++/src/orc/Vector.cc:243-248 | the decimal64 batch's text opens with "Decimal64 vector  with " (two spaces, no "<") and closes with ">" |
| Descriptions.Decimal128 | c++/src/orc/Vector.cc:269-274 | the decimal128 batch's text opens with "Decimal128 vector  with " (two spaces, no "<") and closes with ">" |
| Descriptions.List | c++/src/orc/Vector.cc:159-164 | the list batch's text opens with "List vector <" followed by the elements' text, and closes with ">" |
| Descriptions.Map | c++/src/orc/Vector.cc:183-189 | the map batch's text opens with "Map vector <", the keys' text, ", " and the elements' text, and closes with ">" |
| Descriptions.Union | c++/src/orc/Vector.cc:211-222 | the union batch's text opens with "Union vector <" followed by the children's texts joined by ", ", and closes with ">" |
| Descriptions.Struct | c++/src/orc/Vector.cc:132-142 | the struct batch's text opens with the header "Struct vector <n of c; " and closes with ">" |
| Descriptions.CountsDetermined | c++/src/orc/Vector.cc:62 | behind a prefix ending in a non-digit, the `<n> of <c>>` tail fixes the prefix and both counts |
| Descriptions.LongDetermined | c++/src/orc/Vector.cc:60-64 | the long batch's text fixes its row count and capacity |
| Descriptions.DoubleDetermined | c++/src/orc/Vector.cc:83-87 | the double batch's text fixes its row count and capacity |
| Descriptions.BytesDetermined | c++/src/orc/Vector.cc:107-111 | the string batch's text fixes its row count and capacity |
| Descriptions.Decimal64Determined | c++/src/orc/Vector.cc:243-248 | the decimal64 batch's text fixes its row count and capacity |
| Descriptions.Decimal128Determined | c++/src/orc/Vector.cc:269-274 | the decimal128 batch's text fixes its row count and capacity |
| Descriptions.ListDetermined | c++/src/orc/Vector.cc:159-164 | the list batch's text fixes the elements' text, the row count and the capacity |
| Descriptions.MapDetermined | c++/src/orc/Vector.cc:183-189 | the map batch's text fixes the keys' and elements' texts joined by ", ", the row count and the capacity |
| Descriptions.UnionDetermined | c++/src/orc/Vector.cc:211-222 | the union batch's text fixes its children's joined texts, the row count and the capacity |
| Descriptions.StructDetermined | c++/src/orc/Vector.cc:132-142 | the struct batch's text fixes the row count, the capacity and its fields' terminated texts |
| Descriptions.StructFieldsInOrder | c++/src/orc/Vector.cc:132-142 | field `i`'s text sits between the header with the earlier fields and the later fields, each field followed by "; " |
| Descriptions.UnionChildrenInOrder | c++/src/orc/Vector.cc:211-222 | child `i`'s text follows the earlier children and precedes ", " and the later ones, and nothing follows the last child but the counts |
| Descriptions.AppendTerminated | c++/src/orc/Vector.cc:136-139 | the struct loop leaves the prefix followed by every field text, each followed by "; " |
| Descriptions.AppendJoined | c++/src/orc/Vector.cc:214-219 | the union loop leaves the prefix followed by the child texts, with ", " between neighbours only |
| Vector.GrowVariant | c++/src/orc/Vector.cc:66-282 | a kind's buffers after a resize: list and map offsets have `capacity + 1` entries, every other buffer `capacity` entries; old entries are kept, and no child batch is touched |
| Vector.ColumnVectorBatch.Long | c++/src/orc/Vector.cc:50-54 | a new long batch is valid, has the given capacity, no rows, no nulls and a data buffer of `capacity` entries |
| Vector.ColumnVectorBatch.Double | c++/src/orc/Vector.cc:73-77 | a new double batch is valid, has the given capacity, no rows, no nulls and a data buffer of `capacity` entries |
| Vector.ColumnVectorBatch.String | c++/src/orc/Vector.cc:96-101 | a new string batch is valid, has the given capacity, no rows, no nulls, and data and length buffers of `capacity` entries |
| Vector.ColumnVectorBatch.Struct | c++/src/orc/Vector.cc:121-124 | a new struct batch is valid, has the given capacity, no rows, no nulls and no fields |
| Vector.ColumnVectorBatch.List | c++/src/orc/Vector.cc:149-153 | a new list batch is valid, has the given capacity, no rows, no nulls, `capacity + 1` offsets and no elements batch yet |
| Vector.ColumnVectorBatch.Map | c++/src/orc/Vector.cc:173-177 | a new map batch is valid, has the given capacity, no rows, no nulls, `capacity + 1` offsets and no keys or elements batch yet |
| Vector.ColumnVectorBatch.Union | c++/src/orc/Vector.cc:198-203 | a new union batch is valid, has the given capacity, no rows, no nulls, `capacity` tags and offsets, and no children |
| Vector.ColumnVectorBatch.Decimal64 | c++/src/orc/Vector.cc:232-237 | a new decimal64 batch is valid, has the given capacity, no rows, no nulls, and value and scale buffers of `capacity` entries |
| Vector.ColumnVectorBatch.Decimal128 | c++/src/orc/Vector.cc:258-263 | a new decimal128 batch is valid, has the given capacity, no rows, no nulls, and value and scale buffers of `capacity` entries |
| Vector.ColumnVectorBatch.ResizeBase | c++/src/orc/Vector.cc:43-48 | only a larger request sets the capacity and grows the null indicators to it; nothing else changes |
| Vector.ColumnVectorBatch.ResizeLong | c++/src/orc/Vector.cc:66-71 | a larger request grows the capacity, the null indicators and the data; a smaller or equal one changes nothing; the row count, the null flag and the children never change |
| Vector.ColumnVectorBatch.ResizeDouble | c++/src/orc/Vector.cc:89-94 | the same as the long batch, for the double data |
| Vector.ColumnVectorBatch.ResizeString | c++/src/orc/Vector.cc:113-119 | a larger request grows the data and length buffers with the capacity; both keep `capacity` entries |
| Vector.ColumnVectorBatch.ResizeStruct | c++/src/orc/Vector.cc:145-147 | only the base state grows; the field batches and the variant are left exactly as they were |
| Vector.ColumnVectorBatch.ResizeList | c++/src/orc/Vector.cc:166-171 | a larger request grows the offsets to `capacity + 1` entries; the elements batch stays the same |
| Vector.ColumnVectorBatch.ResizeMap | c++/src/orc/Vector.cc:191-196 | a larger request grows the offsets to `capacity + 1` entries; the keys and elements batches stay the same |
| Vector.ColumnVectorBatch.ResizeUnion | c++/src/orc/Vector.cc:224-230 | a larger request grows tags and offsets to `capacity` entries; the children stay the same |
| Vector.ColumnVectorBatch.ResizeDecimal64 | c++/src/orc/Vector.cc:250-256 | a larger request grows values and scales to `capacity` entries |
| Vector.ColumnVectorBatch.ResizeDecimal128 | c++/src/orc/Vector.cc:276-282 | a larger request grows values and scales to `capacity` entries |
| Vector.ColumnVectorBatch.Resize | c++/src/orc/Vector.cc:43-48 | the virtual call runs the kind's override; afterwards the batch is valid, at least as large as requested, never smaller than before, and related to the old state by `ResizedTo` |
| Vector.ColumnVectorBatch.ResizeTwice | c++/src/orc/Vector.cc:43-48 | resizing twice to the same capacity leaves what resizing once leaves |
| Vector.ColumnVectorBatch.ToString | c++/src/orc/Vector.cc:60-274 | each kind's `toString` returns the batch's description, with the children's descriptions embedded for lists, maps, structs and unions |
| Vector.ColumnVectorBatch.StructToString | c++/src/orc/Vector.cc:132-142 | the struct text is the header, each field's text followed by "; " in field order, and ">" |
| Vector.ColumnVectorBatch.UnionToString | c++/src/orc/Vector.cc:211-222 | the union text lists every child's text in index order, separated by ", ", then the counts |
| Vector.ColumnVectorBatch.ReleaseFields | c++/src/orc/Vector.cc:126-130 | the struct destructor releases exactly the fields, in order, each once, and never the struct itself |
| Vector.ColumnVectorBatch.ReleaseChildren | c++/src/orc/Vector.cc:205-209 | the union destructor releases exactly the children, in order, each once, and never the union itself |
| Decimals.Find | c++/src/orc/Vector.cc:290 | the search returns the first index holding the character, or reports that there is none |
| Decimals.ToInt32 | c++/src/orc/Vector.cc:297 | the cast to `int32_t` keeps lengths below 2^31 and otherwise wraps modulo 2^32 |
| Decimals.SplitLiteral | c++/src/orc/Vector.cc:289-299 | without a point the whole text is parsed at scale 0; otherwise the first point is cut out and the scale is the length minus the point's index |
| Decimals.FromString | c++/src/orc/Vector.cc:289-300 | the constructor succeeds exactly when the integer parser accepts the text with the point removed, carries the parsed value with that scale, and passes a parser error on unchanged |
| Decimals.ScaleCountsThePoint | c++/src/orc/Vector.cc:297 | the scale as computed is one more than the number of characters after the point |
| Decimals.AsWrittenMisplacesPoint | c++/src/orc/Vector.cc:297 | putting the point back into the digit text `scale` places from the right never reproduces a literal that has a point |
| Decimals.TwelvePointFive | c++/src/orc/Vector.cc:297 | "12.5" is split into the digits "125" with scale 2, and putting the point back into the digit text 2 places from the right gives "1.25" |
| Decimals.SplitLiteralIntended | c++/src/orc/Vector.cc:296-298 | as `SplitLiteral`, but the scale counts only the characters after the point |
| Decimals.IntendedRoundTrip | c++/src/orc/Vector.cc:297 | with the corrected scale, putting the point back reproduces the literal |
| Decimals.FromStringIntended | c++/src/orc/Vector.cc:289-300 | the constructor with the corrected scale: it succeeds exactly when the parser accepts the digit text, then carries the parsed value with the corrected scale, passes a parser error on unchanged, and for a literal with a point the scale lies below the literal's length |
| Decimals.ToString | c++/src/orc/Vector.cc:302-304 | delegates to the renderer: the text is what `toDecimalString` makes of the value and the scale |

## Left out

- The `MemoryPool` that every constructor takes, and the allocation inside `DataBuffer`: a buffer is a sequence of its entries.
- Vector.ColumnVectorBatch.Resize: allocation failure is not modelled. In the source it propagates out of `resize` (and out of the constructors) to the caller. Because the base `resize` assigns `capacity` before growing `notNull`, and every override grows the base before its own buffers, such a failure can leave `capacity` larger than the lengths of `notNull` or the kind's buffers, a state `Valid()` excludes.
- Buffers.Grown: the entries a resize adds hold zero, where the C++ buffer leaves them unspecified.
- The contents of double values: they are kept as raw 64-bit patterns, and nothing computes with them.
- Capacities are unbounded naturals. The 64-bit wrap of `cap + 1` for list and map offsets is not modelled; the allocation would fail long before it.
- `Int128(std::string)` is the parameter `parse` of `Decimals.FromString`. Its failure is the `Err` case. Parsing digits into 128 bits is not part of this model.
- Decimals.ToString: `Decimal::toString` only hands value and scale to `Int128::toDecimalString`, which is not part of this model. So the function takes the renderer as a parameter and states nothing more.
- The `Decimal(Int128, int32_t)` constructor is the datatype constructor `Decimal(value, scale)`.
- `delete` and memory release: the destructors are modelled as the sequence of child batches they release.
- `std::ostringstream`: output is string concatenation, and counts are rendered by `Numerals.NatToString`.
- Vector.ColumnVectorBatch.ToString: the children's texts come from the `Describe` function rather than from recursive calls of the children's `toString` methods. Child texts are computed before the appending loop, not inside it. `toString` has no side effects, so the resulting text is the same.
- The public members that callers assign (`fields`, `children`, `elements`, `keys`) are declared in `Vector.hh`, which is not part of this model. The methods `AddField`, `AddChild`, `AttachElements` and `AttachKeys` stand in for those assignments and keep the footprint valid.
- A list's or map's `toString` dereferences its child batches. The model requires them to be attached (`Attached()`) instead of modelling a null dereference.
- Concurrency: batches are not shared between threads in this model.

## Findings

| source | as written | input that shows it | evidently intended | confidence | as-written member | corrected member |
|---|---|---|---|---|---|---|
| c++/src/orc/Vector.cc:297 | the scale is the literal's length minus the index of the point, which counts the point itself | "12.5" gives value 125 with scale 2, which is 1.25 | the scale is the number of digits after the point (length minus index minus one), so "12.5" is 125 with scale 1 | high; not executed | Decimals.AsWrittenMisplacesPoint | Decimals.IntendedRoundTrip |

`Decimals.FromString` keeps the scale as the code computes it, because it models the constructor as written. `Decimals.FromStringIntended` is the constructor with the corrected scale.
