# Verified model of a spreadsheet object model's style and grid core

This project models, in Dafny, the core of a C# object model for reading, changing and rewriting
OOXML spreadsheet packages (.xlsx). The core covers three areas.

- **Style tables.** These are interned tables of fonts, fills, border sets, number formats and
  composite cell formats. Each table maps a formatting value to a small integer id: a value equal
  to one already stored gets that value's id back, and a new value gets a fresh id. The tables
  together form the style registry. It is the only path by which a range (a cell) changes its
  format: changing one part re-interns the composite format and stores its id on the range.
- **Grid collections.** These are the sparse rows, columns and cells of a worksheet, keyed by
  index. They support padding (filling gaps with blank entries), shifting on insert and delete,
  and search. Columns are compacted into column ranges when written and expanded again when
  loaded.
- **Workbook pieces.** These are the sheet collection (unique names, visibility, selection),
  defined names and their address strings, shared strings, merged cells, page setup, the column
  name and cell address conversions, and the serial date conversion.

## How the model is built

- Value-like style objects (colors, fonts, fills, borders, alignment, number formats and cell
  formats) are datatypes. Each setter is a function that returns the updated value.
- The objects the source changes in place are classes with `map` or `seq` fields, and their
  methods carry `modifies` clauses. These are the style tables, the style registry with its
  ranges, the row, column and cell collections, the sheet collection, the defined-name
  collection, the shared-string collection, the merge walk and the dictionary enumerator.
- Loops in the source are methods with loop invariants. Each such method is proved against a
  specification function, and the lemmas about that function state what the source promises.
- Where the source does something its own documentation or a round trip says it should not, the
  public members model the code as written. A corrected definition sits beside it, with the
  intended property proved about it; see "## Findings".
- Exceptions the source throws become `Result` errors named after the .NET exception
  (`Err(NullReference)`, `Err(KeyNotFound)`, `Err(ArgumentOutOfRange)`, ...). A null reference
  the source returns is `None`.

## Model

| member | source | states |
|---|---|---|
| Helpers.ToCamelCase | Helpers.cs:27-34 | null and "" come back unchanged; otherwise only the first character is lower-cased and the rest and the length are kept |
| Helpers.EnumValueFromDescription | Helpers.cs:11-25 | the value of the first member whose name equals the description case-sensitively, or 0 (the enum default) when no name matches |
| Helpers.FirstNamedInTail | Helpers.cs:15-23 | skipping a first member whose name does not match shifts the first match by one |
| Helpers.GetEnumValueFromDescription | Helpers.cs:11-25 | the loop over the members returns exactly EnumValueFromDescription |
| Helpers.ParseInt | Utilities/Office/Excel/Worksheets/WorksheetData/PrintSetup/PageSetup.cs:122-123 | int.Parse succeeds exactly on an optional '-' followed by at least one decimal digit |
| Helpers.ParseIntToString | Utilities/Office/Excel/Worksheets/WorksheetData/PrintSetup/PageSetup.cs:122-123 | parsing the decimal text of any integer gives that integer back |
| Helpers.DigitsOfNatToString | Utilities/Office/Excel/Worksheets/WorksheetData/PrintSetup/PageSetup.cs:122-123 | the decimal text of a natural number is all digits and denotes that number |
| Helpers.EqualsIgnoreCaseIsEquivalence | Utilities/Office/Excel/Worksheets/WorksheetCollection.cs:208-229 | case-insensitive name comparison is reflexive, symmetric and transitive |
| Helpers.EqualsIgnoreCaseKeepsLength | Utilities/Office/Excel/Worksheets/WorksheetCollection.cs:208-229 | names that compare equal ignoring case have the same length |
| Helpers.FirstIndex | Utilities/Linq/LinqLibrary.cs:29-42 | -1 or an index whose element passes the test, with no passing element before it |
| Helpers.FirstIndexIsUnique | Utilities/Linq/LinqLibrary.cs:29-42 | that "first match or -1" description determines the index |
| Helpers.IndexOf | Utilities/Linq/LinqLibrary.cs:32-42 | the counting loop returns the index of the first element passing the test, or -1 |
| Helpers.Offset | Utilities/Linq/LinqLibrary.cs:47-54 | the element at first-match index + offset when that position exists, otherwise the default (None) |
| Helpers.Next | Utilities/Linq/LinqLibrary.cs:59-62 | the element after the first match (None after the last element); with no match at all, the first element, since -1 + 1 = 0 |
| Helpers.Previous | Utilities/Linq/LinqLibrary.cs:67-70 | the element before the first match; None when the match is the first element or there is none |
| OfficeUtilities.CoveredPrefixBound | Office/OfficeUtilities.cs:26-32 | a key set holding all of 0..n-1 has at least n keys, so the search for an unused key stops |
| OfficeUtilities.GetFirstUnusedKey | Office/OfficeUtilities.cs:26-32 | the result is the smallest non-negative integer that is not a key |
| OfficeUtilities.FirstUnusedIsUnique | Office/OfficeUtilities.cs:26-32 | only one integer is the first unused key |
| OfficeUtilities.DeletedKeyIsReused | Office/OfficeUtilities.cs:28-31 | after deleting a key below the first unused key, the deleted key is the first unused key |
| OfficeUtilities.FirstUnusedGrowsOnInsert | Office/OfficeUtilities.cs:28-31 | storing under the first unused key moves the first unused key strictly up |
| OfficeUtilities.GetMaxKey | Office/OfficeUtilities.cs:34-40 | -1 for an empty dictionary, otherwise the greatest key |
| OfficeUtilities.GetMinKey | Office/OfficeUtilities.cs:101 | the least key of a non-empty dictionary |
| OfficeUtilities.FindFirst | Office/OfficeUtilities.cs:54-105 | the first key in ascending order whose value passes the test, None when no value passes (FirstOrDefault over a sorted dictionary) |
| OfficeUtilities.GenericEnumerator.Reset | Office/OfficeUtilities.cs:96-104 | the position is just below the least key (0 for an empty dictionary) and nothing has been produced |
| OfficeUtilities.GenericEnumerator.MoveNext | Office/OfficeUtilities.cs:83-94 | on true the position is the next key above the old one, with no key skipped; on false every key has been produced; keys come out strictly ascending |
| OfficeUtilities.GenericEnumerator.Current | Office/OfficeUtilities.cs:66-72 | the value at the current position, and KeyNotFound exactly when the position is not a key |
| StyleTables.StyleTable.constructor | Office/Excel/Styles/FontCollection.cs:26-32 | a new table is empty; the value type's equality, copy and id are those its collection supplies |
| StyleTables.StyleTable.Get | Office/Excel/Styles/FontCollection.cs:50-58 | the id indexer gives the stored value, and null exactly for a missing id (the same in the fill, borders and cell-format collections) |
| StyleTables.StyleTable.Default | Office/Excel/Styles/FontCollection.cs:35-44 | null for an empty table, else the entry under the default id, raising KeyNotFound when that id is missing |
| StyleTables.StyleTable.FirstEqualIsUnique | Office/Excel/Styles/FontCollection.cs:61-70 | only one key is the first key holding a value equal to a given one |
| StyleTables.StyleTable.Find | Office/Excel/Styles/FontCollection.cs:61-70 | the value indexer gives the lowest-key stored value equal to the argument, and null exactly when no stored value is equal |
| StyleTables.StyleTable.NewId | Office/Excel/Styles/FontCollection.cs:123-126 | a new id is the first unused key |
| StyleTables.StyleTable.InsertIsIdempotent | Office/Excel/Styles/FontCollection.cs:86-99 | inserting the same value twice: the second insert changes nothing and returns what the first returned |
| StyleTables.StyleTable.Add | Utilities/Office/Excel/Styles/CellFormatCollection.cs:110-114 | a value is stored under its own id only when that id is free; an existing id is never overwritten |
| StyleTables.StyleTable.Insert | Office/Excel/Styles/FontCollection.cs:86-99 | returns the first stored value equal to the argument and changes nothing, or stores the argument's copy under the first unused id and returns it; the count grows by at most one |
| StyleTables.StyleTable.Delete | Office/Excel/Styles/FontCollection.cs:101-105 | the entry under the id is removed; a missing id changes nothing |
| StyleTables.StyleTable.Clear | Office/Excel/Styles/FontCollection.cs:72-79 | an empty table stays empty; otherwise only the entry under the least key remains |
| StyleTables.MaxAboveMin | Office/Excel/Styles/FontCollection.cs:72-79 | with more than one key the greatest key lies above the least, so Clear never removes the least key |
| StyleTables.NewFontTable | Office/Excel/Styles/FontCollection.cs:26-32 | the font table: empty, default id 0, fonts compared by their used properties, stored as a rebuilt copy carrying the new id |
| StyleTables.NewFillTable | Office/Excel/Styles/FillCollection.cs:26-32 | the fill table: empty, fills compared by pattern and colours, stored as a copy carrying the new id |
| StyleTables.NewBordersTable | Utilities/Office/Excel/Styles/BordersCollection.cs:26-32 | the borders table: empty, borders compared edge by edge, stored with clones of the five edges (BordersCollection.cs:84-98) |
| StyleTables.NewCellFormatTable | Utilities/Office/Excel/Styles/CellFormatCollection.cs:26-32 | the cell-format table: empty, composites compared part by part, stored with the new id |
| Colors.Reset | Utilities/Office/Excel/Styles/Color.cs:144-152 | clearing gives an unused colour with no channel in use |
| Colors.SetIndexed | Utilities/Office/Excel/Styles/Color.cs:20-24 | the same value changes nothing; a new value of at least 0 clears every other channel first; a negative one leaves them |
| Colors.SetTheme | Utilities/Office/Excel/Styles/Color.cs:27-31 | the same value changes nothing; a new value of at least 0 clears every other channel first; a negative one leaves them |
| Colors.SetRgb | Utilities/Office/Excel/Styles/Color.cs:37-41 | the same string changes nothing; a new non-empty string clears every other channel first; null or "" leaves them |
| Colors.SetTint | Utilities/Office/Excel/Styles/Color.cs:45-49 | the tint is stored and nothing else changes |
| Colors.SetAuto | Utilities/Office/Excel/Styles/Color.cs:52-56 | true clears every other channel (even when Auto was already true); false leaves them |
| Colors.ColorsEqualMeaning | Utilities/Office/Excel/Styles/Color.cs:115-130 | two colours are equal iff both are unused, or both are used and all five fields agree |
| Colors.ColorsEqualIsEquivalence | Utilities/Office/Excel/Styles/Color.cs:115-130 | colour equality is reflexive, symmetric and transitive |
| Colors.ClearedColorIsUnused | Utilities/Office/Excel/Styles/Color.cs:75-78 | a default-constructed colour is unused, equal to every unused colour and to no used one |
| Colors.RangeDefaultIsUsed | Utilities/Office/Excel/Styles/Color.cs:65-68 | a colour made for a range runs no setter, so its zero fields count as used (theme 0) |
| Colors.SettersKeepWellFormed | Utilities/Office/Excel/Styles/Color.cs:20-56 | with ordinary arguments every setter keeps at most one channel in use |
| Colors.CloneIsExact | Utilities/Office/Excel/Styles/Color.cs:103-112 | Clone reproduces every well-formed colour exactly |
| Colors.CopyIsExact | Utilities/Office/Excel/Styles/Color.cs:80-92 | the copy constructor reproduces a well-formed colour unless Auto is set with a non-zero tint |
| Colors.CopyDropsTintUnderAuto | Utilities/Office/Excel/Styles/Color.cs:85-92 | Auto is applied last, so copying an Auto colour with a tint loses the tint |
| Colors.CloneOfRangeDefault | Utilities/Office/Excel/Styles/Color.cs:103-112 | the copy constructor keeps a range colour's fields, Clone does not, and the clone is unequal to it |
| Colors.RemoveChar | Utilities/Office/Excel/Styles/Color.cs:188 | removing every occurrence of a character: none remains and nothing else is added |
| Colors.ConvertRgbToHtml | Utilities/Office/Excel/Styles/Color.cs:176-184 | null and "" pass through; otherwise the first two characters give way to "#", and a one-character string raises |
| Colors.ConvertHtmlToRgb | Utilities/Office/Excel/Styles/Color.cs:185-191 | null and "" pass through; otherwise "FF" is put in front and every '#' removed |
| Colors.HtmlRoundTrip | Utilities/Office/Excel/Styles/Color.cs:160-191 | a code ValidateRgb accepts (seven characters starting with '#', no other '#') survives the trip to the stored form and back |
| Colors.RemoveLeading | Utilities/Office/Excel/Styles/Color.cs:188 | removing '#' from a code whose only '#' is its first character drops just that character |
| Colors.RgbRoundTrip | Utilities/Office/Excel/Styles/Color.cs:176-191 | a stored "FF" form without '#' survives the trip to #RRGGBB and back |
| Fonts.RemoveFirst | Office/Excel/Styles/Font.cs:302-303 | removing a property from the used list drops it and keeps every other property; on a list without duplicates the property is gone afterwards |
| Fonts.GetFontProperty | Office/Excel/Styles/Font.cs:190-214 | a value is returned exactly when the property was set explicitly, and it has the property's type; otherwise null |
| Fonts.GetFontProperties | Office/Excel/Styles/Font.cs:216-226 | the bag has one key per explicitly set property, each mapped to the value GetFontProperty returns |
| Fonts.StoreValue | Office/Excel/Styles/Font.cs:266-298 | storing a value changes only that property's field; the used list and the id are kept |
| Fonts.SetFontProperty | Office/Excel/Styles/Font.cs:262-304 | null unsets the property; a non-positive size, an unused colour or an empty name is ignored and the font is unchanged; an accepted value becomes the property's value and is marked used once; other properties keep their values |
| Fonts.FontsEqualMeaning | Office/Excel/Styles/Font.cs:157-184 | two fonts are equal exactly when they set the same properties and every one to an equal value |
| Fonts.FontsEqualIsEquivalence | Office/Excel/Styles/Font.cs:157-184 | font equality is reflexive, symmetric and transitive |
| Fonts.Rebuild | Office/Excel/Styles/FontCollection.cs:93 | the font built from a property bag under a new id sets the same properties to the same values |
| Fonts.RebuildIsEqual | Office/Excel/Styles/FontCollection.cs:86-99 | the stored copy is equal to the inserted font in both directions, whatever its id |
| Fonts.SetThenClearIsEqual | Office/Excel/Styles/Font.cs:262-304 | setting an unset property and then clearing it gives a font equal to the original |
| Fills.NewFill | Office/Excel/Styles/Fill.cs:23 | a new fill has the given id and the Solid pattern |
| Fills.ForegroundColor | Office/Excel/Styles/Fill.cs:108-121 | a foreground colour never set reads as an unused colour |
| Fills.BackgroundColor | Office/Excel/Styles/Fill.cs:122-135 | a background colour never set reads as an unused colour |
| Fills.SetPatternType | Office/Excel/Styles/Fill.cs:152-157 | a defined pattern code is stored; an undefined one, or null, leaves the fill unchanged |
| Fills.SetForeground | Office/Excel/Styles/Fill.cs:161-163 | a colour is stored as the foreground; null leaves the fill unchanged |
| Fills.SetBackground | Office/Excel/Styles/Fill.cs:158-160 | a colour is stored as the background; null leaves the fill unchanged |
| Fills.UpdateForeground | Office/Excel/Styles/Fill.cs:170-176 | the colour is stored, a None pattern becomes Solid, any other pattern and the background are kept |
| Fills.FillsEqualIsEquivalence | Office/Excel/Styles/Fill.cs:92-97 | fill equality is an equivalence and ignores the id |
| Fills.CloneFillIsEqual | Office/Excel/Styles/Fill.cs:86-89 | a well-formed fill is equal to its clone, which has id -1 |
| Fills.ForegroundMakesPatternVisible | Office/Excel/Styles/Fill.cs:174-175 | after a foreground colour is set the pattern is defined and never None |
| Fills.TableCopy | Office/Excel/Styles/FillCollection.cs:91 | the stored copy has the new id, the same pattern and the same foreground and background colours |
| Fills.TableCopyIsEqual | Office/Excel/Styles/FillCollection.cs:84-97 | a fill with a defined pattern is equal to its stored copy |
| Borders.EdgeColor | Utilities/Office/Excel/Styles/Border.cs:23 | an edge whose colour was never set reads as an unused colour |
| Borders.SetBorderStyle | Utilities/Office/Excel/Styles/Border.cs:73-84 | a defined style code is stored; an undefined code or null leaves the edge unchanged; the type and colour are kept |
| Borders.SetBorderColor | Utilities/Office/Excel/Styles/Border.cs:85-87 | a colour is stored; null leaves the edge unchanged; the type and style are kept |
| Borders.CloneBorderPreserves | Utilities/Office/Excel/Styles/Border.cs:26-30 | a clone of an edge with a defined style has the same type, style and colour, and is equal to it |
| Borders.BorderEqualIsEquivalence | Utilities/Office/Excel/Styles/Border.cs:54-58 | edge equality is reflexive, symmetric and transitive |
| Borders.SetBorder | Office/Excel/Styles/Borders.cs:85-110 | the edge lands in the slot its type names; null and every other slot are left alone; the id is kept |
| Borders.GetBorder | Office/Excel/Styles/Borders.cs:132-165 | a table entry's edge is returned exactly when its slot is filled; an empty slot is the "border not set" error |
| Borders.GetRangeBorder | Office/Excel/Styles/Borders.cs:156-162 | a range's empty slot falls back to a copy of the current table entry's edge; it fails only when both slots are empty |
| Borders.EdgesEqualMeaning | Office/Excel/Styles/Borders.cs:73-80 | over complete borders the comparison never fails, and is true exactly when every visited pair of edges is equal |
| Borders.BordersEqualMeaning | Office/Excel/Styles/Borders.cs:73-80 | complete borders compare without error, and are equal exactly when all five edges are |
| Borders.IncompleteBordersFailToCompare | Office/Excel/Styles/Borders.cs:156-161 | comparing table borders with an empty slot raises the error |
| Borders.BordersEqualIsEquivalence | Office/Excel/Styles/Borders.cs:73-80 | equality of complete borders is an equivalence and ignores the id |
| Borders.CloneEdges | Utilities/Office/Excel/Styles/BordersCollection.cs:91-92 | the stored copy has the new id and a clone of every edge |
| Borders.CloneEdgesIsEqual | Utilities/Office/Excel/Styles/BordersCollection.cs:84-97 | a stored copy of borders whose edges have defined styles is equal to the original |
| Alignments.SetWrapText | Utilities/Office/Excel/Styles/Alignment.cs:16 | the wrap flag is stored, the other parts are kept |
| Alignments.SetHorizontal | Utilities/Office/Excel/Styles/Alignment.cs:18 | the horizontal code is stored, the other parts are kept |
| Alignments.SetVertical | Utilities/Office/Excel/Styles/Alignment.cs:20 | the vertical code is stored, the other parts are kept |
| Alignments.AlignmentsEqualIsIdentity | Utilities/Office/Excel/Styles/Alignment.cs:55-58 | two alignments are equal exactly when all three parts are equal |
| Alignments.WrittenAttributesOmitDefaults | Utilities/Office/Excel/Styles/Alignment.cs:109-118 | the default alignment writes no attribute; wrapText is written exactly when set, horizontal and vertical exactly when their code is positive |
| Alignments.ReadAlignment | Utilities/Office/Excel/Styles/Alignment.cs:84-105 | reading applies the attributes in order over a blank alignment |
| Alignments.ReadAfterWriteLosesHorizontal | Utilities/Office/Excel/Styles/Alignment.cs:96 | a centred alignment is written as "center" and reads back as the default alignment |
| Alignments.WrittenNameReadsAsZero | Utilities/Office/Excel/Styles/Alignment.cs:96-99 | a camel-cased member name never matches a capitalised one, so the reader falls back to code 0 |
| Alignments.ReadAfterWriteKeepsOnlyWrapText | Utilities/Office/Excel/Styles/Alignment.cs:84-118 | any alignment reads back after a write with only its wrap flag; both codes become 0 |
| Alignments.CamelNamesDistinct | Helpers.cs:27-34 | camel-casing keeps distinct capitalised member names distinct |
| Alignments.ReadAfterWriteCorrected | Utilities/Office/Excel/Styles/Alignment.cs:84-118 | with member names compared in camel case, every alignment with defined codes reads back as itself |
| Alignments.AppendAttributeAsWritten | Utilities/Office/Excel/Styles/Alignment.cs:88-102 | reading one more attribute applies it to what the earlier attributes gave, so the reader is a left fold |
| Alignments.AppendAttribute | Utilities/Office/Excel/Styles/Alignment.cs:88-102 | the corrected reader is the same left fold of its attribute step |
| NumberFormats.PositiveSection | Office/Excel/Styles/NumberFormat.cs:169-171 | the examined section is the longest prefix of the code without a ';', ending at the first ';' when there is one |
| NumberFormats.PositiveSectionOfSplit | Office/Excel/Styles/NumberFormat.cs:171 | for a code whose first section has no ';', the examined section is exactly that first section |
| NumberFormats.ClassifyResultTypes | Office/Excel/Styles/NumberFormat.cs:161-178 | classification always yields General, Numeric or DateTime, never Fraction, Text or an unset type |
| NumberFormats.ClassifyIgnoresLaterSections | Office/Excel/Styles/NumberFormat.cs:169-171 | only the text before the first ';' decides the classification |
| NumberFormats.NumericCodeHasZero | Office/Excel/Styles/NumberFormat.cs:198 | every code the numeric pattern accepts contains a '0' |
| NumberFormats.MonthOnlyIsDateTime | Office/Excel/Styles/NumberFormat.cs:299-302 | a code of month letters only is DateTime and renders with its letters upper-cased |
| NumberFormats.ThousandsMakeNumeric | Office/Excel/Styles/NumberFormat.cs:198-202 | a "#,##" right before the first '0' makes the code numeric |
| NumberFormats.DecimalsMakeNumeric | Office/Excel/Styles/NumberFormat.cs:198-202 | a ".0" right after the first '0' makes the code numeric |
| NumberFormats.PercentMakesNumeric | Office/Excel/Styles/NumberFormat.cs:198-202 | a '%' right after the first '0' makes the code numeric |
| NumberFormats.PlainZeroIsNotNumeric | Office/Excel/Styles/NumberFormat.cs:198-202 | with no "#,##" before the first '0' and no '.', 'E' or '%' after it, the code is not numeric |
| NumberFormats.ClassifyNumericSection | Office/Excel/Styles/NumberFormat.cs:173-174 | a single-section code the numeric pattern accepts is Numeric |
| NumberFormats.ClassifyDateTimeSection | Office/Excel/Styles/NumberFormat.cs:176-177 | a single-section code that is not numeric but matches the date pattern is DateTime |
| NumberFormats.ClassifyGeneralSection | Office/Excel/Styles/NumberFormat.cs:165-167 | a single-section code that matches neither pattern is General with an empty rendering pattern |
| NumberFormats.DateLetterMakesDateTime | Office/Excel/Styles/NumberFormat.cs:289-293 | a code with no line break and no locale block that holds a y, m, d, h or s letter matches the date pattern |
| NumberFormats.NumericWinsOverDateTime | Office/Excel/Styles/NumberFormat.cs:173-177 | "0.0 h" matches both patterns and is Numeric, because numeric is tried first |
| NumberFormats.ClassifyTextCodeExample | Office/Excel/Styles/NumberFormat.cs:161-178 | the text code "@" classifies as General |
| NumberFormats.ClassifyPercentExample | Office/Excel/Styles/NumberFormat.cs:198-202 | "0%" is Numeric |
| NumberFormats.ClassifyThousandsExample | Office/Excel/Styles/NumberFormat.cs:198-202 | "#,##0" is Numeric |
| NumberFormats.ClassifyDateExample | Office/Excel/Styles/NumberFormat.cs:289-297 | "d/m/yy" is DateTime |
| NumberFormats.ClassifyLoneZeroExample | Office/Excel/Styles/NumberFormat.cs:161-178 | a lone "0" is General |
| NumberFormats.LocaleBlockCodeIsNotNumeric | Office/Excel/Styles/NumberFormat.cs:198-202 | "[$-409]h" has no numeric part |
| NumberFormats.LocaleBlockCodeIsDateTime | Office/Excel/Styles/NumberFormat.cs:289-293 | "[$-409]h" matches the date pattern through its h |
| NumberFormats.ClassifyLocaleBlockExample | Office/Excel/Styles/NumberFormat.cs:289-297 | "[$-409]h" is DateTime, although its locale block holds a '0' |
| NumberFormats.SetFormatCode | Office/Excel/Styles/NumberFormat.cs:161-178 | the code is stored with its classification; the id and the built-in flag are kept |
| NumberFormats.SetFormatCodeProperty | Office/Excel/Styles/NumberFormat.cs:34 | setting the code of a built-in format, or setting null, changes nothing; otherwise the code is stored and classified |
| NumberFormats.GetFormattedValue | Office/Excel/Styles/NumberFormat.cs:84-117 | rendering fails exactly for a stored Fraction type (not implemented) and for a format with neither type nor code (null dereference); otherwise General and Text render the value's text, and under DateTime a non-number or a negative number renders as its text |
| NumberFormats.FormattingNeverFailsAfterClassification | Office/Excel/Styles/NumberFormat.cs:84-117 | a format whose stored type is not Fraction, and which has a code whenever it has no type, always renders |
| NumberFormats.RangeFormatCannotRender | Office/Excel/Styles/NumberFormat.cs:161-171 | a range's own number format, with no type and a null code, raises a null dereference when asked to render, also after a null code is assigned |
| NumberFormats.HugeSerialRendersAsText | Office/Excel/Styles/NumberFormat.cs:101-112 | a date serial beyond the representable range renders as the value's text |
| NumberFormats.WrittenElement | Office/Excel/Styles/NumberFormat.cs:372-383 | the default format (id -1) is never written; any other format is written with its id and code |
| NumberFormats.BuiltInFormatsWellFormed | Utilities/Office/Excel/Styles/NumberFormatCollection.cs:149-200 | the built-ins are marked built-in and have ids below 164, strictly increasing |
| NumberFormatTables.ByIdWellFormed | Utilities/Office/Excel/Styles/NumberFormatCollection.cs:128-134 | every loaded built-in sits under its own id below 164 and is marked built-in, and none is lost |
| NumberFormatTables.BuiltInMapWellFormed | Utilities/Office/Excel/Styles/NumberFormatCollection.cs:128-134 | the built-in dictionary holds every built-in under its own id below 164 |
| NumberFormatTables.LoadById | Utilities/Office/Excel/Styles/NumberFormatCollection.cs:128-134 | the loading loop stores each format under its id in list order |
| NumberFormatTables.CodeLookupAsWritten | Utilities/Office/Excel/Styles/NumberFormatCollection.cs:58-67 | as written, the string lookup answers only when both a built-in and a custom format have the code, and then gives the custom one |
| NumberFormatTables.CodeLookup | Utilities/Office/Excel/Styles/NumberFormatCollection.cs:58-67 | as intended, the string lookup answers a built-in with the code, else a custom one |
| NumberFormatTables.FirstWithCode | Utilities/Office/Excel/Styles/NumberFormatCollection.cs:136-139 | a format is found exactly when some format has the code, and the found one has it |
| NumberFormatTables.NumberFormatTable.constructor | Utilities/Office/Excel/Styles/NumberFormatCollection.cs:32-37 | a new table holds the default format as its only custom entry and the built-ins under their ids |
| NumberFormatTables.NumberFormatTable.Get | Utilities/Office/Excel/Styles/NumberFormatCollection.cs:45-56 | the id lookup gives a built-in first, then a custom format, and null when neither has the id |
| NumberFormatTables.NumberFormatTable.View | Utilities/Office/Excel/Styles/NumberFormatCollection.cs:45-56 | the id lookup as one dictionary |
| NumberFormatTables.NumberFormatTable.CustomIdsReachCustom | Utilities/Office/Excel/Styles/NumberFormatCollection.cs:45-56 | a custom id from 164 on is never shadowed by a built-in |
| NumberFormatTables.NumberFormatTable.GetByCodeAsWritten | Utilities/Office/Excel/Styles/NumberFormatCollection.cs:58-67 | as written, a result exists exactly when a built-in and a custom format both have the code, and it is the custom one |
| NumberFormatTables.NumberFormatTable.GetByCode | Utilities/Office/Excel/Styles/NumberFormatCollection.cs:58-67 | corrected: a built-in with the code, else a custom one, else null |
| NumberFormatTables.NumberFormatTable.Find | Utilities/Office/Excel/Styles/NumberFormatCollection.cs:69-83 | a built-in with an equal code first, then a custom one; null exactly when none has the code |
| NumberFormatTables.NumberFormatTable.NewId | Utilities/Office/Excel/Styles/NumberFormatCollection.cs:115-121 | a new id is 164 while only the default exists, else one past the greatest custom id, so it is fresh |
| NumberFormatTables.NumberFormatTable.Add | Utilities/Office/Excel/Styles/NumberFormatCollection.cs:141-147 | a code already among the custom formats is skipped; a taken id raises; otherwise the format is stored under its id |
| NumberFormatTables.NumberFormatTable.Insert | Utilities/Office/Excel/Styles/NumberFormatCollection.cs:85-98 | an equal built-in or custom format is returned and nothing changes; otherwise a new untyped custom format with the code is stored under a fresh id |
| NumberFormatTables.CodeLookupAsWrittenMissesBuiltIn | Utilities/Office/Excel/Styles/NumberFormatCollection.cs:62-64 | the built-in code "0.00" with no custom twin is answered with null as written, and with built-in 2 as intended |
| CellFormats.NewCellFormat | Office/Excel/Styles/CellFormat.cs:53-56 | a new workbook cell format has ids 0, no alignment, borders, fill or font, and the default number format |
| CellFormats.GetAlignment | Office/Excel/Styles/CellFormat.cs:95-105 | an alignment never set reads as the default alignment |
| CellFormats.ComparePart | Office/Excel/Styles/CellFormat.cs:82-90 | comparing a part fails exactly when either side is null, and otherwise gives the part's own equality |
| CellFormats.CellFormatsEqualMeaning | Office/Excel/Styles/CellFormat.cs:82-90 | formats whose parts all resolve compare without error, and are equal exactly when all five parts are |
| CellFormats.MissingFontFailsToCompare | Office/Excel/Styles/CellFormat.cs:128-138 | a font that resolves to nothing makes the comparison fail once the earlier parts agree |
| CellFormats.CellFormatsEqualIsEquivalence | Office/Excel/Styles/CellFormat.cs:82-90 | equality of resolved formats is an equivalence and ignores the format's own ids |
| CellFormats.WithId | Utilities/Office/Excel/Styles/CellFormatCollection.cs:79-80 | the stored copy has the new id, the same base id, and every part as its getter resolves it |
| CellFormats.WithIdIsEqual | Utilities/Office/Excel/Styles/CellFormatCollection.cs:71-86 | the stored copy of a resolved format is resolved and equal to it |
| CellFormats.Attribute | Office/Excel/Styles/CellFormat.cs:167-176 | an attribute's value is that of some attribute with the name; none is found only when no attribute has the name |
| CellFormats.Lookup | Utilities/Office/Excel/Styles/CellFormatCollection.cs:36-44 | a table lookup finds an entry exactly when the id is present, and gives that entry |
| CellFormats.ReadPart | Office/Excel/Styles/CellFormat.cs:167-174 | a part is looked up by id only when its apply flag is set; otherwise it keeps its current value; an id that is missing or unparsable fails |
| CellFormats.ReadCellFormat | Office/Excel/Styles/CellFormat.cs:157-187 | a read format has the given id and base id 0, and each part whose apply flag is not set stays unset (the number format stays the default) |
| CellFormats.NumberFormatLookups | Office/Excel/Styles/CellFormat.cs:195-199 | the written number-format flag and id are present exactly when a non-default number format is written |
| CellFormats.BordersLookups | Office/Excel/Styles/CellFormat.cs:200-204 | the written borders flag and id are present exactly when the borders were set |
| CellFormats.FillLookups | Office/Excel/Styles/CellFormat.cs:205-209 | the written fill flag and id are present exactly when the fill was set |
| CellFormats.FontLookups | Office/Excel/Styles/CellFormat.cs:210-214 | the written font flag and id are present exactly when the font was set |
| CellFormats.AlignmentLookup | Office/Excel/Styles/CellFormat.cs:215-219 | the written alignment flag is present exactly when the alignment was set |
| CellFormats.WrittenFlags | Office/Excel/Styles/CellFormat.cs:191-222 | an apply flag is written exactly for a non-default number format and for each explicitly set part |
| CellFormats.ReadNumberFormatBack | Office/Excel/Styles/CellFormat.cs:167-168 | a written number format reads back as itself; an unwritten one reads as the default format |
| CellFormats.ReadBordersBack | Office/Excel/Styles/CellFormat.cs:169-170 | written borders read back as themselves, and unset borders stay unset |
| CellFormats.ReadFillBack | Office/Excel/Styles/CellFormat.cs:171-172 | a written fill reads back as itself, and an unset fill stays unset |
| CellFormats.ReadFontBack | Office/Excel/Styles/CellFormat.cs:173-174 | a written font reads back as itself, and an unset font stays unset |
| CellFormats.ReadAlignmentBack | Office/Excel/Styles/CellFormat.cs:175-183 | a written alignment reads back with only its wrap flag |
| CellFormats.ReadAlignmentBackCorrected | Office/Excel/Styles/CellFormat.cs:175-183 | with the reader matching camel-cased names, a written alignment with defined codes reads back whole |
| CellFormats.ReadAfterWrite | Office/Excel/Styles/CellFormat.cs:157-222 | a written format reads back with its explicit parts, given tables that hold each part under its own id; an unwritten number format becomes the default and an alignment keeps only its wrap flag |
| Ranges.LocalAddressEnds | Office/Excel/BaseRange.cs:128-131 | splitting a local address at its first ':' gives back both ends, each behind the "$" marker when the reference is fixed |
| Ranges.UnfixedEnds | Office/Excel/BaseRange.cs:128-131 | without the marker, the ends of a local address are the two addresses it was built from |
| Ranges.RowsAddressRoundTrip | Office/Excel/BaseRange.cs:124-127 | both row numbers are read back from the ends of a rows address |
| Ranges.ColumnsAddressRoundTrip | Office/Excel/BaseRange.cs:141-144 | both column numbers are read back from the column names at the ends of a columns address |
| Ranges.RangeAddress | Office/Excel/BaseRange.cs:119-122 | a range address is the escaped sheet name, '!', then the local address |
| Ranges.PartsEqualIsEquivalence | Office/Excel/BaseRange.cs:109-116 | equality of storable parts of one kind is an equivalence |
| Ranges.Recomposed | Office/Excel/Styles/CellFormat.cs:72-75 | the recomposed format has ids 0, holds the new part, and every other part as the stored format resolves it |
| Ranges.CellFormatsEqualByParts | Office/Excel/Styles/CellFormat.cs:82-90 | resolved formats are equal exactly when all five parts are |
| Ranges.RestyledMeaning | Office/Excel/BaseRange.cs:155-179 | after a part update the stored format holds a part equal to the new one and parts equal to the old format's everywhere else |
| Ranges.RestyledWithEqualPart | Office/Excel/BaseRange.cs:155-179 | a format restyled with a part is restyled with every part equal to it |
| Ranges.RecomposedWithEqualPart | Office/Excel/BaseRange.cs:155-179 | setting a part equal to the one already resolved recomposes a format equal to the stored one |
| Ranges.StylesEqualMeaning | Office/Excel/BaseRange.cs:109-116 | on resolved formats EqualsStyle never fails, and holds exactly when vertical alignment, wrapping, borders, fill and font agree |
| Ranges.CellFormatsEqualHaveEqualStyles | Office/Excel/BaseRange.cs:109-116 | formats equal as cell formats are equal in style |
| Ranges.StylesEqualIgnoresHorizontalAndNumberFormat | Office/Excel/BaseRange.cs:109-116 | EqualsStyle does not look at the horizontal alignment or the number format |
| Ranges.ChangedAlignment | Office/Excel/BaseRange.cs:155-179 | an alignment setter replaces its one property and keeps the other two |
| Ranges.ChangedFill | Office/Excel/Styles/Fill.cs:170-176 | a fill setter sets its property as SetFillProperty does; a foreground over a None pattern switches the pattern to Solid |
| Ranges.ChangedEdgeStyle | Office/Excel/BaseRange.cs:99-102 | the named edge takes a defined style (an undefined one is ignored) and keeps its colour; the other edges are untouched |
| Ranges.OuterStyledEdges | Office/Excel/BaseRange.cs:95-103 | with a defined style, the four outer edges carry it and the diagonal edge is unchanged |
| Ranges.ChangedEdgeStyleRespectsEquality | Office/Excel/BaseRange.cs:99-102 | equal borders stay equal after the same edge update |
| Ranges.RestyledEdgeAgain | Office/Excel/BaseRange.cs:95-103 | two edge updates in a row compose: the format is restyled from the start with both edge changes |
| Ranges.StyleSheet.constructor | Utilities/Office/Excel/Styles/Styles.cs:15-28 | a new stylesheet holds only its default font, fill and borders, no cell format, and the number-format table's default entry |
| Ranges.StyleSheet.StoredFormat | Office/Excel/Styles/CellFormat.cs:95-149 | every stored cell format resolves all its parts, and its font lists each property once |
| Ranges.StyleSheet.InsertCellFormat | Utilities/Office/Excel/Styles/CellFormatCollection.cs:71-86 | the interned format is the first equal stored one, or a copy under a new id, and it is stored under its id |
| Ranges.StyleSheet.InsertFont | Office/Excel/Styles/FontCollection.cs:86-99 | the interned font is equal to the given one and lists its properties once; earlier entries of its table are kept |
| Ranges.StyleSheet.InsertFill | Office/Excel/Styles/FillCollection.cs:84-97 | the interned fill is equal to the given one and has a defined pattern; earlier entries of its table are kept |
| Ranges.StyleSheet.InsertNumberFormat | Utilities/Office/Excel/Styles/NumberFormatCollection.cs:85-98 | a stored format with the same code is returned unchanged and the custom table is unchanged; otherwise a new custom entry for the code is stored under a fresh id; earlier custom entries are kept |
| Ranges.StyleSheet.InsertBorders | Utilities/Office/Excel/Styles/BordersCollection.cs:84-97 | the interned borders are equal to the given ones and complete; earlier entries of its table are kept |
| Ranges.Range.Recompose | Office/Excel/Styles/CellFormat.cs:72-75 | the recomposed format is interned and its id becomes the style index; the stored format is the old one restyled with the part; every cell format stored before is kept |
| Ranges.Range.Restyle | Office/Excel/BaseRange.cs:155-179 | the part is interned in its table, then the composite; the stored format is the old one with the part replaced; every entry the style tables held before is kept |
| Ranges.StyleSheet.InsertPart | Office/Excel/BaseRange.cs:155-179 | the part is interned in the table of its kind, with that table's insert outcome, and the other tables are unchanged; the stored part is of the same kind and equal to the one given; every earlier table entry is kept and the tables stay valid |
| Ranges.Range.SetAlignment | Office/Excel/BaseRange.cs:31-45 | the horizontal, vertical or wrap setter restyles the range with that one alignment property replaced; a style index naming no format is a null dereference and changes nothing; every entry the style tables held before is kept |
| Ranges.Range.SetFontProperty | Office/Excel/Styles/Font.cs:306-319 | a font setter restyles the range with SetFontProperty applied to its resolved font; a missing format changes nothing; every entry the style tables held before is kept |
| Ranges.Range.SetFillProperty | Office/Excel/Styles/Fill.cs:170-188 | a fill setter restyles the range with the fill changed as UpdateFillProperty does; every entry the style tables held before is kept |
| Ranges.Range.SetNumberFormatCode | Office/Excel/Styles/NumberFormat.cs:146-159 | the code is interned in the number-format table first, then the range is restyled with it; every custom number format and cell format stored before is kept, and only those two tables change |
| Ranges.Range.SetEdgeStyle | Office/Excel/Styles/Borders.cs:112-126 | setting one edge's style restyles the range with that edge changed in its resolved borders; every entry the style tables held before is kept |
| Ranges.Range.SetEdgeStyleAgain | Office/Excel/BaseRange.cs:95-103 | a further edge update keeps the stored format restyled from the starting one with all edge changes so far; every entry the style tables held before is kept |
| Ranges.Range.UpdateOuterBorderStyle | Office/Excel/BaseRange.cs:95-103 | the four outer edges take the style in turn; the stored format is the old one with the outer edges restyled; every entry the style tables held before is kept |
| Ranges.Range.EqualsStyle | Office/Excel/BaseRange.cs:109-116 | fails with a null dereference exactly when either style index names no format; otherwise compares the two formats' styles |
| Ranges.OuterStyled | Office/Excel/BaseRange.cs:95-103 | the outer-border update always leaves borders that can be stored |
| Ranges.PartOf | Office/Excel/Styles/CellFormat.cs:95-149 | the part a getter returns is of the kind asked for, and a resolved format has every part |
| ColumnNames.LastDigit | Utilities/Office/Excel/Utilities/ColumnIndexConverter.cs:96-98 | the last letter's value is between 1 and 26 and congruent to the index modulo 26 |
| ColumnNames.ColumnName | Utilities/Office/Excel/Utilities/ColumnIndexConverter.cs:88-105 | the name is empty exactly for an index of 0 or less, and otherwise is a non-empty run of capital letters |
| ColumnNames.ColumnIndexOfNamePositive | Utilities/Office/Excel/Utilities/ColumnIndexConverter.cs:107-125 | every column name has a positive index |
| ColumnNames.ColumnIndexOfName | Utilities/Office/Excel/Utilities/ColumnIndexConverter.cs:88-125 | the index of the name of a non-negative index is that index |
| ColumnNames.ColumnNameOfIndex | Utilities/Office/Excel/Utilities/ColumnIndexConverter.cs:88-125 | the name of the index of a column name is that name |
| ColumnNames.ColumnNameExamples | Utilities/Office/Excel/Utilities/ColumnIndexConverter.cs:88-105 | 1 is "A", 26 is "Z", 27 is "AA" and 16384 is "XFD" |
| ColumnNames.ColumnNameFromIndex | Utilities/Office/Excel/Utilities/ColumnIndexConverter.cs:88-105 | the loop computes the column name of the index |
| ColumnNames.ColumnIndexFromName | Utilities/Office/Excel/Utilities/ColumnIndexConverter.cs:107-125 | the loop computes the column index of the name, as a base-26 number with digits 1 to 26 |
| ColumnNames.StripDigits | Utilities/Office/Excel/Utilities/ColumnIndexConverter.cs:67 | the result has no digit and only characters of the input |
| ColumnNames.StripDigitsOfLetters | Utilities/Office/Excel/Utilities/ColumnIndexConverter.cs:67 | stripping the digits from letters followed by digits leaves the letters |
| ColumnNames.ColumnPartOfAddress | Utilities/Office/Excel/Utilities/ColumnIndexConverter.cs:61-68 | an address with ':' has no column part; otherwise the part has no digit and no lower-case letter |
| ColumnNames.RemoveAllPrefix | Utilities/Office/Excel/Utilities/ColumnIndexConverter.cs:57 | removing a column name from that name followed by digits leaves the digits |
| ColumnNames.TryParse | Utilities/Office/Excel/Utilities/ColumnIndexConverter.cs:57 | a parsable text gives its number, any other gives 0 |
| ColumnNames.RowOfAddressOfCellAddress | Utilities/Office/Excel/Utilities/ColumnIndexConverter.cs:50-59 | for an address that upper-cases to a column name and a row number, the column part is the name and the corrected row is the number |
| ColumnNames.LowerCaseAddressLosesRow | Utilities/Office/Excel/Utilities/ColumnIndexConverter.cs:57 | "a1" has column 1 but, as written, row 0; corrected, row 1 |
| ColumnNames.CellIndexesOfUpperCaseAddress | Utilities/Office/Excel/Utilities/ColumnIndexConverter.cs:50-59 | an upper-case address gives back its column and, as written, its row |
| ColumnNames.LowerCaseAddressHasNoRow | Utilities/Office/Excel/Utilities/ColumnIndexConverter.cs:57 | any address starting with a lower-case letter gets its column but row 0 as written |
| ColumnNames.ColumnIndexConverter.constructor | Utilities/Office/Excel/Utilities/ColumnIndexConverter.cs:13-15 | a new converter has empty caches |
| ColumnNames.ColumnIndexConverter.UpdateIndexes | Utilities/Office/Excel/Utilities/ColumnIndexConverter.cs:70-76 | each cache gains the entry only when its key is new; existing entries are kept |
| ColumnNames.ColumnIndexConverter.IndexFromAddress | Utilities/Office/Excel/Utilities/ColumnIndexConverter.cs:17-33 | the column index of an address's column part, 0 for none; every cached entry is kept, a new index is cached under that column part, and the caches stay consistent |
| ColumnNames.ColumnIndexConverter.NameFromIndex | Utilities/Office/Excel/Utilities/ColumnIndexConverter.cs:35-48 | "" for an index of 0 or less; otherwise the name cached for the index, whose index is the given one, and the canonical name while the caches are canonical; every cached entry is kept |
| ColumnNames.ColumnIndexConverter.CellIndexesFromAddressAsWritten | Utilities/Office/Excel/Utilities/ColumnIndexConverter.cs:50-59 | on any cache: the column index of the address; row 0 when there is none; otherwise the row as written, read with the name cached for that column, which is the address's own column part when the column was new; earlier cache entries are kept, and a canonical cache with a column-name address gives the row read with the canonical name |
| ColumnNames.ColumnIndexConverter.CellIndexesFromAddress | Utilities/Office/Excel/Utilities/ColumnIndexConverter.cs:50-59 | the corrected reading on any cache: the row comes from the upper-cased address, read with the name cached for the column; the same cache guarantees as the as-written method |
| ColumnNames.CellIndexesOfCellAddress | Utilities/Office/Excel/Utilities/ColumnIndexConverter.cs:50-59 | with the corrected reading, every address that upper-cases to a name and a row gives back both |
| ColumnNames.ReadAfter | Utilities/Office/Excel/Utilities/ColumnIndexConverter.cs:50-59 | on one converter, reading an address after another with the same column index reads the second row with the first address's column part |
| ColumnNames.PoisonedCache | Utilities/Office/Excel/Utilities/ColumnIndexConverter.cs:17-59 | after "@A1" is read, "A5" gives column 1 and row 0 on that converter, while a fresh converter gives row 5 |
| TimeConverter.RoundHalfEven | Utilities/Office/Excel/Utilities/TimeConverter.cs:65 | the rounded value is within one half of the input, and an exact half rounds to the even neighbour |
| TimeConverter.AddMs | Utilities/Office/Excel/Utilities/TimeConverter.cs:57-67 | a successful addition stays in the representable range and moves the instant by exactly the milliseconds added |
| TimeConverter.SerialToDateTime | Utilities/Office/Excel/Utilities/TimeConverter.cs:47-77 | a negative serial is the invalid-cast error; any other gives a representable date and time |
| TimeConverter.TruncatingDiv | Utilities/Office/Excel/Utilities/TimeConverter.cs:54-65 | integer division rounds toward zero, as the int casts do |
| TimeConverter.DateTimeToSerial | Utilities/Office/Excel/Utilities/TimeConverter.cs:36-45 | conversion fails only for the first representable day, which cannot move back a day |
| TimeConverter.TimeOfDaySteps | Utilities/Office/Excel/Utilities/TimeConverter.cs:59-65 | for a whole number of seconds into the day, the hour, minute and second steps recover exactly the hours, minutes and seconds |
| TimeConverter.ReadWholeSeconds | Utilities/Office/Excel/Utilities/TimeConverter.cs:47-69 | a whole day count plus whole seconds reads as that day after 30 December 1899 at that time, corrected before 1 March 1900 |
| TimeConverter.WriteWholeSeconds | Utilities/Office/Excel/Utilities/TimeConverter.cs:36-45 | a date from 1 March 1900 with whole seconds is written as its day count from 30 December 1899 plus the fraction of the day |
| TimeConverter.SerialRoundTrip | Utilities/Office/Excel/Utilities/TimeConverter.cs:36-77 | a date from 1 March 1900 with whole seconds survives a write and a read |
| TimeConverter.EarlyWrite | Utilities/Office/Excel/Utilities/TimeConverter.cs:36-45 | a date from 2 January to 28 February 1900 with whole seconds is moved back a day, so it is written as one less than its day count from 30 December 1899, plus the fraction of the day |
| TimeConverter.EarlyRoundTrip | Utilities/Office/Excel/Utilities/TimeConverter.cs:36-77 | a date from 2 January to 28 February 1900 with whole seconds also survives a write and a read: the day moved back on writing is moved forward on reading |
| TimeConverter.LeapDayCollapses | Utilities/Office/Excel/Utilities/TimeConverter.cs:93-111 | serials 60 and 61 both read as 1 March 1900, and serial 1 as 1 January 1900 |
| TimeConverter.BaseExternalDayIsTimeOnly | Utilities/Office/Excel/Utilities/TimeConverter.cs:38-39 | a time on 1 January 1900 is written as its fraction of a day alone, and that fraction reads back on 31 December 1899 |
| TimeConverter.SecondsRoundHalfToEven | Utilities/Office/Excel/Utilities/TimeConverter.cs:65 | half a second rounds down to 0 and one and a half seconds round up to 2 |
| TimeConverter.OutOfRangeSerialIsMinValue | Utilities/Office/Excel/Utilities/TimeConverter.cs:71-76 | a serial beyond the representable range reads as the minimum date |
| Cells.ClassifyValue | Utilities/Office/Excel/Worksheets/WorksheetData/Cell.cs:361-397 | a value that prints as "" is Blank and only such a value is; a bool is Boolean; a non-empty string is SharedString; a date is stored as its serial, failing exactly when the conversion does; another object is a Number exactly when its text parses as a number, and the ArgumentOutOfRange error otherwise |
| Cells.ClassifiedValuesAreWellTyped | Utilities/Office/Excel/Worksheets/WorksheetData/Cell.cs:361-397 | every classified value is stored with a raw value that matches its type |
| Cells.GetValue | Utilities/Office/Excel/Worksheets/WorksheetData/Cell.cs:342-359 | Blank reads as "", Boolean as its flag, SharedString as text; well-typed Blank, Boolean, Number, SharedString and String cells always read; Error, InlineString and Date raise ArgumentOutOfRange |
| Cells.NewCell | Utilities/Office/Excel/Worksheets/WorksheetData/Cell.cs:68-74 | a new cell is created exactly when its value classifies, with the given row, column and style, that classification, and no merge or hyperlink |
| Cells.BlankCell | Utilities/Office/Excel/Worksheets/WorksheetData/Cell.cs:90-93 | a cell made with no value is Blank, reads as "" and has no merge or hyperlink |
| Cells.SetValue | Utilities/Office/Excel/Worksheets/WorksheetData/Cell.cs:24 | setting a value fails exactly when it does not classify, and otherwise changes only the type and raw value |
| Cells.Clear | Utilities/Office/Excel/Worksheets/WorksheetData/Cell.cs:273-277 | a cleared cell is Blank, reads as "" and has the default style; position, merges and hyperlink are kept |
| Cells.ClearedCellIsUnused | Utilities/Office/Excel/Worksheets/WorksheetData/Cell.cs:51 | a cleared cell without merges or a hyperlink is used exactly when its formatted text is not empty, and its blank value gives the empty text |
| Cells.SetMergeDown | Utilities/Office/Excel/Worksheets/WorksheetData/Cell.cs:39 | a non-negative value is stored and a negative one ignored |
| Cells.SetMergeAcross | Utilities/Office/Excel/Worksheets/WorksheetData/Cell.cs:45 | a non-negative value is stored and a negative one ignored |
| Cells.TypeFromAttribute | Utilities/Office/Excel/Worksheets/WorksheetData/Cell.cs:465-477 | "b", "s" and "str" name Boolean, SharedString and String; anything else is Number |
| Cells.AttributeFromType | Utilities/Office/Excel/Worksheets/WorksheetData/Cell.cs:559-568 | no type attribute is written exactly for Number and Blank |
| Cells.TypeAttributeRoundTrip | Utilities/Office/Excel/Worksheets/WorksheetData/Cell.cs:465-568 | Boolean, SharedString, String and Number survive a write and a read of the type attribute; Blank and the unsupported types read back as Number |
| Cells.WriteCell | Utilities/Office/Excel/Worksheets/WorksheetData/Cell.cs:519-557 | an unused cell is not written; a written cell carries a type attribute exactly when its type is neither Number nor Blank, a style exactly when it is above the default, and its address as its reference |
| Cells.Address | Utilities/Office/Excel/Worksheets/WorksheetData/Cell.cs:308-311 | an address is the column name followed by the row number |
| Cells.UpperAddress | Utilities/Office/Excel/Worksheets/WorksheetData/Cell.cs:308-311 | upper-casing an address leaves the column name and the row digits unchanged |
| Cells.AddressRoundTrip | Utilities/Office/Excel/Worksheets/WorksheetData/Cell.cs:308-311 | the column index and the row are read back from a cell's address |
| CellCollections.BumpColumns | Office/Excel/Worksheets/WorksheetData/ColumnCollection.cs:125-128 | bumping keeps the keys; cells at or after the column move one column right, the others are unchanged |
| CellCollections.ShiftedUpToAll | Office/Excel/Worksheets/WorksheetData/CellCollection.cs:230-245 | the reversed shift loop, once past every key, has built the shifted collection |
| CellCollections.AsWrittenAfterColumnShift | Office/Excel/Worksheets/WorksheetData/CellCollection.cs:226-248 | after the columns were bumped, the as-written insert moves every cell at or after the new column one to the right and puts the new cell in its place |
| CellCollections.CorrectedAfterColumnShift | Office/Excel/Worksheets/WorksheetData/CellCollection.cs:226-248 | the corrected insert gives the same result as the as-written one after a column bump |
| CellCollections.AsWrittenOverwrites | Office/Excel/Worksheets/WorksheetData/CellCollection.cs:238-246 | when no column was bumped, the as-written insert overwrites the cell at the new cell's column and moves nothing |
| CellCollections.CorrectedShifts | Office/Excel/Worksheets/WorksheetData/CellCollection.cs:226-248 | the corrected insert moves every cell at or after the new column one to the right and places the new cell |
| CellCollections.InsertAsWrittenLosesCell | Office/Excel/Worksheets/WorksheetData/CellCollection.cs:238-246 | inserting at column 1 of a row whose cell 1 is unbumped replaces that cell as written |
| CellCollections.InsertCorrectedKeepsCell | Office/Excel/Worksheets/WorksheetData/CellCollection.cs:226-248 | corrected, the old cell 1 moves to column 2 |
| CellCollections.InsertShiftedIsConsistent | Office/Excel/Worksheets/WorksheetData/CellCollection.cs:226-248 | after an insert every cell still sits under its own column |
| CellCollections.DeleteStep | Office/Excel/Worksheets/WorksheetData/CellCollection.cs:158-168 | one step of the delete loop: an absent key changes nothing, the deleted column is removed, a later cell moves one left |
| CellCollections.DeletedBelowEnds | Office/Excel/Worksheets/WorksheetData/CellCollection.cs:158-168 | once past every key, the delete loop has built the shifted collection |
| CellCollections.DeleteShiftedIsConsistent | Office/Excel/Worksheets/WorksheetData/CellCollection.cs:154-173 | after a delete every cell still sits under its own column |
| CellCollections.DeleteUndoesInsert | Office/Excel/Worksheets/WorksheetData/CellCollection.cs:154-248 | deleting the column just inserted gives back the original collection |
| CellCollections.PaddedKeepsAndFills | Office/Excel/Worksheets/WorksheetData/CellCollection.cs:321-344 | padding keeps every cell and adds a blank cell, with the row's style, at each missing column from 1 to the count |
| CellCollections.PaddedUpToIsPadded | Office/Excel/Worksheets/WorksheetData/CellCollection.cs:340-343 | the padding loop, once done, has built the padded collection |
| CellCollections.AllMatchesExact | Office/Excel/Worksheets/WorksheetData/CellCollection.cs:259-279 | the matches are exactly the cells satisfying the test, in column order |
| CellCollections.MatchesAsWrittenDiffersOnlyIgnoringCase | Office/Excel/Worksheets/WorksheetData/CellCollection.cs:257-279 | the as-written matcher agrees with the intended one except for a case-insensitive text search, where it compares values exactly |
| CellCollections.IgnoreCaseSearchMissesCell | Office/Excel/Worksheets/WorksheetData/CellCollection.cs:261-272 | a case-insensitive search for "abc" misses a cell holding "Abc" as written, and finds it as intended |
| CellCollections.FindIn | Office/Excel/Worksheets/WorksheetData/CellCollection.cs:253-285 | null exactly when nothing matches; otherwise the first match only, or all matches in column order |
| CellCollections.CellCollection.ForRow | Office/Excel/Worksheets/WorksheetData/CellCollection.cs:42-47 | a row's collection starts empty |
| CellCollections.CellCollection.ForColumn | Office/Excel/Worksheets/WorksheetData/CellCollection.cs:48-54 | a column's collection holds the cells gathered from the rows |
| CellCollections.CellCollection.Get | Office/Excel/Worksheets/WorksheetData/CellCollection.cs:78-86 | a present cell is returned unchanged; a missing one within the column range is created blank with the row's style and stored; outside the range it is an error and nothing changes |
| CellCollections.CellCollection.Set | Office/Excel/Worksheets/WorksheetData/CellCollection.cs:87-93 | the cell is stored under the index, replacing any cell there |
| CellCollections.CellCollection.Clear | Office/Excel/Worksheets/WorksheetData/CellCollection.cs:99-105 | every cell is cleared and no key is added or removed |
| CellCollections.CellCollection.Pad | Office/Excel/Worksheets/WorksheetData/CellCollection.cs:321-344 | the collection becomes the padded collection |
| CellCollections.CellCollection.Insert | Office/Excel/Worksheets/WorksheetData/CellCollection.cs:127-137 | a column collection raises not-implemented; an index outside the column range is an error; otherwise a blank cell is inserted as written |
| CellCollections.CellCollection.ShiftCells | Office/Excel/Worksheets/WorksheetData/CellCollection.cs:230-245 | the collection becomes the shifted one |
| CellCollections.CellCollection.InsertCellAsWritten | Office/Excel/Worksheets/WorksheetData/CellCollection.cs:226-248 | the collection becomes the as-written insert of the new cell, which is returned |
| CellCollections.CellCollection.InsertCell | Office/Excel/Worksheets/WorksheetData/CellCollection.cs:226-248 | the corrected insert; over a consistent collection, every later cell moves right and the new cell is placed |
| CellCollections.CellCollection.ShiftLeft | Office/Excel/Worksheets/WorksheetData/CellCollection.cs:158-168 | the collection becomes the delete-shifted one |
| CellCollections.CellCollection.Delete | Office/Excel/Worksheets/WorksheetData/CellCollection.cs:154-173 | a column collection raises not-implemented; a row collection drops the column and moves later cells one left, staying consistent |
| CellCollections.CellCollection.FindCellsAsWritten | Office/Excel/Worksheets/WorksheetData/CellCollection.cs:253-285 | the matches of the as-written matcher, or null when there are none |
| CellCollections.CellCollection.FindCells | Office/Excel/Worksheets/WorksheetData/CellCollection.cs:253-285 | the matches of the intended matcher, or null when there are none |
| CellCollections.CellCollection.FindCellsWith | Office/Excel/Worksheets/WorksheetData/CellCollection.cs:253-285 | the matches of the given test, or null when there are none |
| WorksheetCells.Rebound | Office/Excel/Worksheets/WorksheetData/WorksheetCellCollection.cs:39-42 | the stored cell has the target row and column and is otherwise the given cell |
| WorksheetCells.SheetMatchesAppend | Office/Excel/Worksheets/WorksheetData/WorksheetCellCollection.cs:85-90 | the sheet's matches over two runs of rows are the matches of the first run followed by those of the second |
| WorksheetCells.SheetMatchesExact | Office/Excel/Worksheets/WorksheetData/WorksheetCellCollection.cs:81-96 | every matching cell of every row is among the sheet's matches, and every match satisfies the test |
| WorksheetCells.WorksheetCells.EnsureColumn | Office/Excel/Worksheets/WorksheetData/WorksheetCellCollection.cs:21-24 | an existing or valid column index is materialised; an invalid missing one is ArgumentOutOfRange and changes nothing |
| WorksheetCells.WorksheetCells.Prepare | Office/Excel/Worksheets/WorksheetData/WorksheetCellCollection.cs:20-26 | the column is materialised and the rows are padded up to the row index, which then holds a row; valid indexes on a contiguous sheet always succeed |
| WorksheetCells.WorksheetCells.ReadRow | Office/Excel/Worksheets/WorksheetData/WorksheetCellCollection.cs:26 | the rows are padded up to the row index and that row is returned |
| WorksheetCells.WorksheetCells.Get | Office/Excel/Worksheets/WorksheetData/WorksheetCellCollection.cs:16-29 | an invalid column is ArgumentOutOfRange; otherwise the existing cell is returned, or a blank cell with the row's style is created and stored |
| WorksheetCells.WorksheetCells.Set | Office/Excel/Worksheets/WorksheetData/WorksheetCellCollection.cs:31-45 | an invalid column is ArgumentOutOfRange; otherwise the cell, rebound to the target row and column, is stored there |
| WorksheetCells.WorksheetCells.GetByAddress | Office/Excel/Worksheets/WorksheetData/WorksheetCellCollection.cs:48-60 | on any converter cache: an address whose column or row is invalid gives null; otherwise the cell at the column and the row read with the name cached for the column, which is the canonical one while the cache is canonical; earlier cache entries are kept |
| WorksheetCells.WorksheetCells.FindCellsWith | Office/Excel/Worksheets/WorksheetData/WorksheetCellCollection.cs:81-96 | all matches over the rows in order, or null when there are none |
| WorksheetCells.CollectMatches | Office/Excel/Worksheets/WorksheetData/WorksheetCellCollection.cs:85-90 | the loop over the rows gathers exactly the sheet's matches, row after row |
| WorksheetCells.WorksheetCells.FindCellWith | Office/Excel/Worksheets/WorksheetData/WorksheetCellCollection.cs:65-76 | the first match over the rows in order, or null when there is none |
| WorksheetCells.WorksheetCells.FindCellsByValue | Office/Excel/Worksheets/WorksheetData/WorksheetCellCollection.cs:81-96 | all cells the row matcher accepts, row by row, or null when there are none |
| WorksheetCells.WorksheetCells.FindCellByValue | Office/Excel/Worksheets/WorksheetData/WorksheetCellCollection.cs:65-76 | the first cell the row matcher accepts, or null when there is none |
| Rows.NewRow | Utilities/Office/Excel/Worksheets/WorksheetData/Row.cs:36-44 | a row is created exactly when its index lies in 1..1048576, with the given style and height and no cells; any other index is ArgumentOutOfRange |
| Rows.Height | Utilities/Office/Excel/Worksheets/WorksheetData/Row.cs:20 | the height read is the row's own height when positive, and the sheet's default row height otherwise |
| Rows.MoveRow | Utilities/Office/Excel/Worksheets/WorksheetData/Row.cs:17 | a row given a new index keeps its style, height and column keys, and every one of its cells now reports that row index |
| Rows.MoveRowFixes | Utilities/Office/Excel/Worksheets/WorksheetData/Row.cs:17 | a row that already carries index k, with all its cells, is unchanged by moving it to k |
| Rows.MoveRowTwice | Utilities/Office/Excel/Worksheets/WorksheetData/Row.cs:17 | moving a row to a and then to b is moving it to b |
| Rows.MoveRowRebinds | Utilities/Office/Excel/Worksheets/WorksheetData/Row.cs:17 | moving a row binds it to its new index: moving it there again changes nothing, and two moves compose |
| Rows.MoveBlankRow | Utilities/Office/Excel/Worksheets/WorksheetData/RowCollection.cs:247-250 | a blank row moved from a to b is the blank row at b |
| Rows.PaddedRows | Utilities/Office/Excel/Worksheets/WorksheetData/RowCollection.cs:239-253 | padding over lo..hi keeps every stored row, adds a blank row at each missing index in lo..hi and adds nothing else |
| Rows.PaddedUpToIsPadded | Utilities/Office/Excel/Worksheets/WorksheetData/RowCollection.cs:239-253 | any map holding the stored rows plus blank rows exactly at the missing indexes of lo..hi is the padded map |
| Rows.MovedUp | Utilities/Office/Excel/Worksheets/WorksheetData/RowCollection.cs:127-132 | rows already handed out each sit one index higher after the next insert at or below them |
| Rows.HandedOut | Utilities/Office/Excel/Worksheets/WorksheetData/RowCollection.cs:99-112 | after n inserts at index, the i-th returned row has moved up to index + n - 1 - i and is otherwise blank |
| Rows.HandedOutStep | Utilities/Office/Excel/Worksheets/WorksheetData/RowCollection.cs:105-109 | one more insert moves every row handed out one index up and appends the new blank row at index |
| Rows.PadEnd | Utilities/Office/Excel/Worksheets/WorksheetData/RowCollection.cs:245-252 | padding from currentMax + 1 stops at indexTo or just before the first index the row constructor refuses, and every index it passed is valid |
| Rows.PadEndStops | Utilities/Office/Excel/Worksheets/WorksheetData/RowCollection.cs:224-252 | when an index between currentMax and indexTo is refused, padding ends just before it, short of indexTo |
| Rows.PadEndReaches | Utilities/Office/Excel/Worksheets/WorksheetData/RowCollection.cs:245-252 | when no refused index lies in the way, padding reaches indexTo, or stays at currentMax when indexTo is not above it |
| Rows.PaddedStaysBelow | Utilities/Office/Excel/Worksheets/WorksheetData/RowCollection.cs:261-266 | after padding up to hi no row sits above hi |
| Rows.WriteRow | Utilities/Office/Excel/Worksheets/WorksheetData/Row.cs:128-141 | a row with no used cell writes nothing; otherwise r is its index, s appears exactly when the style is above the default and ht exactly when the height is positive and differs from the sheet default, each carrying the row's value |
| Rows.StoreCell | Utilities/Office/Excel/Worksheets/WorksheetData/Row.cs:22-23 | storing a cell in a row's cells makes that position read back the cell; every other row and column position and every row index are unchanged |
| Rows.InsertedStaysBelow | Utilities/Office/Excel/Worksheets/WorksheetData/RowCollection.cs:115-142 | the internal insert keeps every row at or below the greatest index it reports |
| Rows.InsertRowAsWrittenLeavesGap | Utilities/Office/Excel/Worksheets/WorksheetData/RowCollection.cs:78-81 | on an empty collection, inserting row 3 makes Contains(2) hold while no row is stored at 2 and padding up to 2 adds none |
| Rows.InsertedRowsAt | Utilities/Office/Excel/Worksheets/WorksheetData/RowCollection.cs:115-142 | below the new row's index nothing changes, the new row takes its index, and every row from that index on sits one index higher, moved with its cells; nothing else is stored |
| Rows.InsertedStaysContiguous | Utilities/Office/Excel/Worksheets/WorksheetData/RowCollection.cs:115-142 | inserting at an index at most one above a contiguous collection keeps every index from 1 to the greatest one filled |
| Rows.InsertedStaysBound | Utilities/Office/Excel/Worksheets/WorksheetData/RowCollection.cs:127-136 | inserting a row bound to its index keeps every row bound to the key it is stored under |
| Rows.InsertBlankRowsAt | Utilities/Office/Excel/Worksheets/WorksheetData/RowCollection.cs:99-112 | inserting n blank rows at index keeps the rows below, puts blank rows at index..index+n-1, moves every row from index on n higher, and keeps all rows at or below the greatest index |
| Rows.InsertBlankRowsNext | Utilities/Office/Excel/Worksheets/WorksheetData/RowCollection.cs:105-109 | inserting n + 1 blank rows is the internal insert of one blank row applied to the state after n |
| Rows.PadRows | Utilities/Office/Excel/Worksheets/WorksheetData/RowCollection.cs:245-252 | the padding loop fills exactly the padded map up to where padding stops and fails with ArgumentOutOfRange exactly when it stops short of indexTo |
| Rows.InsertInto | Utilities/Office/Excel/Worksheets/WorksheetData/RowCollection.cs:115-141 | the internal insert on (rows, greatest index, frozen row) yields the inserted rows and greatest index, and raises the frozen row by one when the new row is at or above it |
| Rows.InsertMoreInto | Utilities/Office/Excel/Worksheets/WorksheetData/RowCollection.cs:105-109 | the remaining inserts of Insert(index, n) reach the state of n blank-row inserts, return the handed-out rows, and raise the frozen row once per further insert |
| Rows.InsertNextInto | Utilities/Office/Excel/Worksheets/WorksheetData/RowCollection.cs:105-109 | one further insert in the loop advances the state from i to i + 1 blank-row inserts and hands out one more row |
| Rows.RowCollection.constructor | Utilities/Office/Excel/Worksheets/WorksheetData/RowCollection.cs:38-41 | a new collection holds no rows, has greatest index 0 and the given frozen row |
| Rows.RowCollection.Count | Utilities/Office/Excel/Worksheets/WorksheetData/RowCollection.cs:24-30 | the count is the number of stored rows |
| Rows.RowCollection.ContainsMeansStored | Utilities/Office/Excel/Worksheets/WorksheetData/RowCollection.cs:78-81 | on a contiguous collection Contains(index) holds exactly when a row is stored at index, for every index from 1 on |
| Rows.RowCollection.PadBlankRows | Utilities/Office/Excel/Worksheets/WorksheetData/RowCollection.cs:239-253 | padding adds blank rows from the old greatest index + 1 up to where it stops, which becomes the greatest index; it fails with ArgumentOutOfRange exactly when it stops short, keeping the rows added |
| Rows.RowCollection.PaddedKeepsInvariants | Utilities/Office/Excel/Worksheets/WorksheetData/RowCollection.cs:239-253 | padding keeps the collection contiguous and every row bound to its key |
| Rows.RowCollection.Get | Utilities/Office/Excel/Worksheets/WorksheetData/RowCollection.cs:61-67 | the getter pads up to index and returns the row stored there; an index padding cannot reach is ArgumentOutOfRange and one left unstored is KeyNotFound |
| Rows.RowCollection.GetSucceeds | Utilities/Office/Excel/Worksheets/WorksheetData/RowCollection.cs:61-67 | on a contiguous collection every index in 1..1048576 can be read |
| Rows.RowCollection.Set | Utilities/Office/Excel/Worksheets/WorksheetData/RowCollection.cs:68-72 | the setter pads up to index and stores the row there, failing with the padding's error when index cannot be reached |
| Rows.RowCollection.SetCell | Utilities/Office/Excel/Worksheets/WorksheetData/Row.cs:22-23 | storing a cell in a stored row changes only that position; greatest index and frozen row stay |
| Rows.RowCollection.InsertRowAsWritten | Utilities/Office/Excel/Worksheets/WorksheetData/RowCollection.cs:115-142 | the internal insert moves every row from the new row's index up by one when that index is at most the greatest one, stores the row, and adjusts the frozen row; a row carrying its own index leaves every row bound to the index it is stored under |
| Rows.InsertBlankRowsStayBound | Utilities/Office/Excel/Worksheets/WorksheetData/RowCollection.cs:99-112 | inserting blank rows one after another keeps every row, and every cell in it, bound to the index it is stored under |
| Rows.RowCollection.Insert | Utilities/Office/Excel/Worksheets/WorksheetData/RowCollection.cs:88-112 | a count of 0 or less changes nothing and returns no rows; an invalid index is ArgumentOutOfRange with nothing changed; otherwise n blank rows are inserted at index, the returned rows end at index + n - 1 - i, and the frozen row rises by n when at or below index; every row stays bound to the index it is stored under |
| Rows.RowCollection.InsertMore | Utilities/Office/Excel/Worksheets/WorksheetData/RowCollection.cs:105-109 | the inserts after the first reach the state of n blank-row inserts and return the handed-out rows |
| Rows.RowCollection.Delete | Utilities/Office/Excel/Worksheets/WorksheetData/RowCollection.cs:180-200 | an index at most the greatest one drops that row, moves every row above it one down, lowers the greatest index and a positive frozen row by one; otherwise nothing changes; every row stays bound to the index it is stored under |
| Rows.RowCollection.CopyTo | Utilities/Office/Excel/Worksheets/WorksheetData/Row.cs:78-86 | an invalid target index is ArgumentOutOfRange with nothing changed; otherwise a copy of the row, moved to the target index with its height read through the getter, is inserted there; every row stays bound to the index it is stored under |
| Rows.DeleteKeepsInvariants | Utilities/Office/Excel/Worksheets/WorksheetData/RowCollection.cs:180-200 | a delete keeps the rows contiguous up to the lowered greatest index and bound to their keys |
| Rows.DeleteUndoesInsert | Utilities/Office/Excel/Worksheets/WorksheetData/RowCollection.cs:180-200 | deleting the row just inserted at an index of a contiguous collection restores the rows and the greatest index |
| Columns.NewColumn | Office/Excel/Worksheets/WorksheetData/Column.cs:60-70 | a column is created exactly when its index lies in 1..16384, with the given style, width and flags stored as given; any other index is ArgumentOutOfRange |
| Columns.DefaultColumn | Office/Excel/Worksheets/WorksheetData/Column.cs:54-57 | the public constructor gives the default style, the default width 9.140625 and no flags, for exactly the valid indexes |
| Columns.Width | Office/Excel/Worksheets/WorksheetData/Column.cs:27-34 | the width read is the stored width, capped at the sheet's maximum column width unless that maximum is 0 |
| Columns.SetWidth | Office/Excel/Worksheets/WorksheetData/Column.cs:35-41 | a positive width is stored with 0.83 added; any other value leaves the column unchanged; index, style and flags never change |
| Columns.MaxOf | Office/Excel/Worksheets/WorksheetData/Column.cs:89 | the maximum of the cells' required widths is one of them and no smaller than any of them |
| Columns.AutoFit | Office/Excel/Worksheets/WorksheetData/Column.cs:87-98 | a column without cells fails (the maximum of nothing); a positive maximum other than the default width becomes the width through the setter, with both flags set; otherwise the column is unchanged |
| Columns.MoveColumn | Office/Excel/Worksheets/WorksheetData/Column.cs:12 | setting a column's index changes that index and nothing else |
| Columns.MoveColumnRebinds | Office/Excel/Worksheets/WorksheetData/Column.cs:12 | a column moved to an index is bound to it, and two moves compose |
| Columns.ColumnFromRange | Office/Excel/Worksheets/WorksheetData/Column.cs:72-77 | a column is built from a range exactly when the index is valid and inside the range, taking the range's style, width and flags; otherwise ArgumentOutOfRange |
| Columns.CollectRanges | Office/Excel/Worksheets/WorksheetData/ColumnRange.cs:73-102 | the fold over the columns yields one range per maximal run of continuing columns; with no columns the final add dereferences a missing start column |
| Columns.GetColumnRanges | Office/Excel/Worksheets/WorksheetData/ColumnRange.cs:73-102 | the corrected compaction yields the maximal runs of similar columns with consecutive indexes, and no ranges exactly when there are no columns |
| Columns.RunsLast | Office/Excel/Worksheets/WorksheetData/ColumnRange.cs:99 | the last range closes at the last column |
| Columns.RunsOrdered | Office/Excel/Worksheets/WorksheetData/ColumnRange.cs:73-102 | over ascending columns every range is well formed and ends below the start of the next |
| Columns.RunsCover | Office/Excel/Worksheets/WorksheetData/ColumnRange.cs:73-102 | every column lies inside one of the ranges |
| Columns.RunsMaximal | Office/Excel/Worksheets/WorksheetData/ColumnRange.cs:73-102 | each range is a maximal run: it starts and ends at columns, every column inside continues its predecessor, it carries the start column's properties, and the columns just outside do not continue it |
| Columns.RunUniform | Office/Excel/Worksheets/WorksheetData/ColumnRange.cs:87-89 | inside a gapless run the indexes are consecutive and every column is similar to the start column |
| Columns.GapMergedAsWritten | Office/Excel/Worksheets/WorksheetData/ColumnRange.cs:87-89 | as written, two similar columns at 1 and 3 become the one range 1..3, while the corrected compaction gives 1..1 and 3..3 |
| Columns.LoadedColumn | Office/Excel/Worksheets/WorksheetData/ColumnCollection.cs:225-229 | a loaded column takes the range's style and flags; through the setter a positive width gains 0.83, otherwise the range width is kept |
| Columns.ExpandRange | Office/Excel/Worksheets/WorksheetData/ColumnCollection.cs:225-232 | a range expands into exactly one loaded column per index from min to max |
| Columns.ExpandRangeInto | Office/Excel/Worksheets/WorksheetData/ColumnCollection.cs:225-232 | the loop over a range below the last column adds its columns, and fails exactly when the range starts before column 1 |
| Columns.LoadStopsAtLast | Office/Excel/Worksheets/WorksheetData/ColumnCollection.cs:223-235 | a range reaching column 16384 stops the loading: nothing after it is loaded and it adds nothing |
| Columns.LoadAsWrittenDriftsWidth | Office/Excel/Worksheets/WorksheetData/ColumnCollection.cs:228 | as written, a width-10 column loads as 10.83 and, written and loaded again, as 11.66 |
| Columns.RoundTrip | Office/Excel/Worksheets/WorksheetData/ColumnCollection.cs:216-319 | the columns of a collection below the last column, written by the corrected compaction (with the trailing range) and loaded without re-adjusting, come back at exactly the same indexes with the same reported width and flags |
| Columns.LoadListed | Office/Excel/Worksheets/WorksheetData/ColumnCollection.cs:216-237 | loading the corrected ranges of ascending valid columns restores each of them and nothing else |
| Columns.RoundTripAsWritten | Office/Excel/Worksheets/WorksheetData/ColumnCollection.cs:216-319 | as written, every column comes back at its index with its flags and its reported width plus 0.83 |
| Columns.RoundTripAsWrittenSpans | Office/Excel/Worksheets/WorksheetData/ColumnCollection.cs:216-319 | as written, every loaded index lies between two of the collection's columns, so gaps between similar columns are filled |
| Columns.WithTrailingRange | Office/Excel/Worksheets/WorksheetData/ColumnCollection.cs:301-310 | the written ranges are the compacted ones plus, exactly when ranges were loaded and the last ends below column 16384, a trailing range from the next index to 16384 with the last style and default width |
| Columns.TrailingRangeNotLoaded | Office/Excel/Worksheets/WorksheetData/ColumnCollection.cs:223-235 | reading back what was written, the trailing range loads nothing |
| Columns.ColumnCollection.constructor | Office/Excel/Worksheets/WorksheetData/ColumnCollection.cs:37-40 | a new collection holds no columns and no ranges |
| Columns.ColumnCollection.Get | Office/Excel/Worksheets/WorksheetData/ColumnCollection.cs:63-71 | an existing column is returned unchanged; a missing one is created with the defaults and kept, or fails with ArgumentOutOfRange for an invalid index, changing nothing |
| Columns.ColumnCollection.AddRange | Office/Excel/Worksheets/WorksheetData/ColumnCollection.cs:253-259 | a read range is stored under its first index, replacing any range there; the columns do not change |
| Columns.ColumnCollection.InsertColumn | Office/Excel/Worksheets/WorksheetData/ColumnCollection.cs:104-136 | when some column sits at or after the new index, all those move up one and the caller is told to shift the cells; then the new column is stored at its index |
| Columns.ColumnCollection.Insert | Office/Excel/Worksheets/WorksheetData/ColumnCollection.cs:98-102 | an invalid index is ArgumentOutOfRange with nothing moved; otherwise a default column is inserted as InsertColumn does |
| Columns.ColumnCollection.Delete | Office/Excel/Worksheets/WorksheetData/ColumnCollection.cs:141-165 | an existing column is removed and every later column moves down one; a missing index changes nothing |
| Columns.ColumnCollection.CopyTo | Office/Excel/Worksheets/WorksheetData/Column.cs:120-132 | the target index must lie in 1..16383; the copy takes the column's style, reported width and flags at the target index and is inserted there |
| Columns.ColumnCollection.AutoFitAll | Office/Excel/Worksheets/WorksheetData/ColumnCollection.cs:77-83 | every column is auto-fitted in index order; the first column without cells fails the call with the columns before it fitted |
| Columns.ColumnCollection.LoadColumns | Office/Excel/Worksheets/WorksheetData/ColumnCollection.cs:216-237 | the columns become what loading the ranges in order of their first index yields, or the load fails with ArgumentOutOfRange |
| Columns.ColumnCollection.WriteColumns | Office/Excel/Worksheets/WorksheetData/ColumnCollection.cs:296-320 | the written ranges are the as-written compaction of the columns in index order plus the trailing range; with no columns the compaction fails on a null start column |
| Columns.FitInOrder | Office/Excel/Worksheets/WorksheetData/ColumnCollection.cs:77-83 | the fitting loop fits every column when all have cells, else stops at the first column without cells having fitted those below it |
| Columns.LoadAsWritten | Office/Excel/Worksheets/WorksheetData/ColumnCollection.cs:216-237 | what the loader as written makes of the ranges written as written is the runs' columns, the trailing range included |
| Shifts.KeySpan | Utilities/Office/Excel/Worksheets/WorksheetData/RowCollection.cs:22 | some half-open range holds every key of the dictionary |
| Shifts.InSpan | Utilities/Office/Excel/Worksheets/WorksheetData/RowCollection.cs:22 | every key lies between the least key and one past the greatest |
| Shifts.ShiftUpAt | Office/Excel/Worksheets/WorksheetData/ColumnCollection.cs:108-122 | after the insert shift, keys below index are unchanged, index is free, and the entry that was under j - 1 sits at every j above index, rebound there |
| Shifts.ShiftUpKey | Office/Excel/Worksheets/WorksheetData/ColumnCollection.cs:108-122 | the same, at one key |
| Shifts.ShiftUpStart | Utilities/Office/Excel/Worksheets/WorksheetData/RowCollection.cs:123-125 | before the descending loop moves anything, the map is unchanged |
| Shifts.ShiftUpStep | Utilities/Office/Excel/Worksheets/WorksheetData/RowCollection.cs:127-132 | one step of the descending loop removes the entry under k and stores it rebound at k + 1, which the earlier steps freed |
| Shifts.ShiftUpEnd | Utilities/Office/Excel/Worksheets/WorksheetData/RowCollection.cs:121-133 | once the loop has gone below index, the map is the insert shift |
| Shifts.ShiftUpKeys | Office/Excel/Worksheets/WorksheetData/ColumnCollection.cs:110-122 | the insert loop, visiting the affected keys from the highest down, yields exactly the insert shift |
| Shifts.ShiftUpTop | Utilities/Office/Excel/Worksheets/WorksheetData/RowCollection.cs:121-136 | with every key at most bound, after the insert shift every key is at most bound + 1, and bound + 1 is taken exactly when bound was |
| Shifts.ShiftUpBound | Office/Excel/Worksheets/WorksheetData/ColumnCollection.cs:117-132 | the insert shift and storing a bound entry in the freed key keep every entry bound to its key |
| Shifts.ShiftDownAt | Utilities/Office/Excel/Worksheets/WorksheetData/RowCollection.cs:180-199 | after the delete shift, keys below index are unchanged and the entry that was under j + 1 sits at every j from index on, rebound there; the deleted entry is gone |
| Shifts.ShiftDownStart | Utilities/Office/Excel/Worksheets/WorksheetData/RowCollection.cs:184 | before the ascending loop moves anything, the map is unchanged |
| Shifts.ShiftDownStep | Utilities/Office/Excel/Worksheets/WorksheetData/RowCollection.cs:186-195 | one step of the ascending loop removes the entry under k and, unless it is the deleted one, stores it rebound at k - 1 |
| Shifts.ShiftDownEnd | Utilities/Office/Excel/Worksheets/WorksheetData/RowCollection.cs:184-195 | once the loop has passed every key, the map is the delete shift |
| Shifts.ShiftDownKeys | Office/Excel/Worksheets/WorksheetData/ColumnCollection.cs:148-163 | the delete loop, visiting keys from index up, yields exactly the delete shift |
| Shifts.ShiftDownBound | Office/Excel/Worksheets/WorksheetData/ColumnCollection.cs:150-163 | the delete shift keeps every entry bound to its key |
| Shifts.UndoneAt | Utilities/Office/Excel/Worksheets/WorksheetData/RowCollection.cs:115-199 | key by key, deleting at index right after inserting there gives back what each key held |
| Shifts.ShiftDownUndoesShiftUp | Utilities/Office/Excel/Worksheets/WorksheetData/RowCollection.cs:115-199 | deleting at index right after inserting there gives the map back |
| Shifts.ValuesInKeys | Office/Excel/Worksheets/WorksheetData/ColumnCollection.cs:168-171 | the enumeration yields the value of each present key once, in strictly ascending key order, and nothing else |
| Shifts.ValuesInHigh | Office/Excel/Worksheets/WorksheetData/ColumnCollection.cs:168-171 | widening the enumerated range upwards over absent keys changes nothing |
| Shifts.ValuesInLow | Office/Excel/Worksheets/WorksheetData/ColumnCollection.cs:168-171 | widening the enumerated range downwards over absent keys changes nothing |
| Shifts.OrderedEmpty | Office/Excel/Worksheets/WorksheetData/ColumnCollection.cs:168-171 | the enumeration is empty exactly when the dictionary is |
| Shifts.OrderedValues | Office/Excel/Worksheets/WorksheetData/ColumnCollection.cs:168-171 | the enumeration loop yields the dictionary's values in ascending key order |
| WorksheetCollections.MoveSheet | Office/Excel/Worksheets/Worksheet.cs:17 | setting a sheet's index changes that index and nothing else |
| WorksheetCollections.MoveSheetRebinds | Office/Excel/Worksheets/Worksheet.cs:17 | a sheet moved to an index is bound to it, and two moves compose |
| WorksheetCollections.ClashIsLowerName | Utilities/Office/Excel/Worksheets/WorksheetCollection.cs:213 | a name that clashes, ignoring case, is one of the existing names once lower-cased |
| WorksheetCollections.VersionSuffix | Utilities/Office/Excel/Worksheets/WorksheetCollection.cs:217 | the version suffix has the form " (n)" |
| WorksheetCollections.TrailingDigits | Utilities/Office/Excel/Worksheets/WorksheetCollection.cs:217 | the trailing digits of a text are digits and no longer than it |
| WorksheetCollections.TrailingDigitsAfter | Utilities/Office/Excel/Worksheets/WorksheetCollection.cs:217 | the digits after a non-digit are exactly the trailing digits |
| WorksheetCollections.ToLowerAppend | Utilities/Office/Excel/Worksheets/WorksheetCollection.cs:213 | lower-casing a concatenation lower-cases each part |
| WorksheetCollections.ToLowerKeepsSuffix | Utilities/Office/Excel/Worksheets/WorksheetCollection.cs:217 | lower-casing leaves a version suffix unchanged |
| WorksheetCollections.VersionTagOf | Utilities/Office/Excel/Worksheets/WorksheetCollection.cs:217-219 | a text ending in the suffix for n carries version n |
| WorksheetCollections.VersionTagOfSuffixed | Utilities/Office/Excel/Worksheets/WorksheetCollection.cs:213-219 | a name ending in the suffix for n still carries n after lower-casing |
| WorksheetCollections.NextName | Utilities/Office/Excel/Worksheets/WorksheetCollection.cs:215-221 | one round of the loop yields a name of at most 31 characters that, from the second round on, ends in that round's suffix; it fails only when the suffix alone is longer than 31 |
| WorksheetCollections.CandidateAsWritten | Utilities/Office/Excel/Worksheets/WorksheetCollection.cs:212-225 | as written, the name tried in round n > 2 ends in the suffix of round n - 1, because each round extends the previous round's name |
| WorksheetCollections.Candidate | Utilities/Office/Excel/Worksheets/WorksheetCollection.cs:212-225 | as intended, the name tried in round n > 1 ends in the suffix of round n |
| WorksheetCollections.StepAsWritten | Utilities/Office/Excel/Worksheets/WorksheetCollection.cs:213-225 | one round of the as-written loop keeps its invariant, and from the third round on uses up one more existing name, so the loop ends |
| WorksheetCollections.Step | Utilities/Office/Excel/Worksheets/WorksheetCollection.cs:213-225 | one round of the intended loop keeps its invariant, and from the second round on uses up one more existing name, so the loop ends |
| WorksheetCollections.FoundAsWritten | Utilities/Office/Excel/Worksheets/WorksheetCollection.cs:213-228 | when the as-written loop stops, its name has at most 31 characters and is the first free round's candidate |
| WorksheetCollections.Found | Utilities/Office/Excel/Worksheets/WorksheetCollection.cs:213-228 | when the intended loop stops, its name has at most 31 characters and is the first free round's candidate |
| WorksheetCollections.GetUniqueWorksheetNameAsWritten | Utilities/Office/Excel/Worksheets/WorksheetCollection.cs:208-229 | the name returned clashes with no existing name, ignoring case, has at most 31 characters and is the first free round's candidate of the as-written loop; a suffix that cannot fit is ArgumentOutOfRange |
| WorksheetCollections.GetUniqueWorksheetName | Utilities/Office/Excel/Worksheets/WorksheetCollection.cs:208-229 | the corrected loop returns a name that clashes with no existing name, has at most 31 characters and is the first free round's candidate, each round suffixing the legal name itself |
| WorksheetCollections.UniqueNamesAgreeUpToSecondVersion | Utilities/Office/Excel/Worksheets/WorksheetCollection.cs:212-225 | the two loops settle on the same name while the legal name or its " (2)" version is free |
| WorksheetCollections.NextNameAppends | Utilities/Office/Excel/Worksheets/WorksheetCollection.cs:219 | a suffix that fits after the name is appended unchanged |
| WorksheetCollections.OneDigitSuffix | Utilities/Office/Excel/Worksheets/WorksheetCollection.cs:217 | the suffix of a version below 10 is space, parenthesis, digit, parenthesis |
| WorksheetCollections.AsWrittenRounds | Utilities/Office/Excel/Worksheets/WorksheetCollection.cs:212-225 | as written, the rounds for "A" try "A", "A", "A (2)", then "A (2) (3)" |
| WorksheetCollections.IntendedRounds | Utilities/Office/Excel/Worksheets/WorksheetCollection.cs:212-225 | as intended, the rounds for "A" try "A", "A (2)", then "A (3)" |
| WorksheetCollections.NoClashByLength | Utilities/Office/Excel/Worksheets/WorksheetCollection.cs:213 | no existing name of another length clashes |
| WorksheetCollections.ClashesWithExisting | Utilities/Office/Excel/Worksheets/WorksheetCollection.cs:213 | every existing name clashes with itself |
| WorksheetCollections.AccumulatedNameIsFree | Utilities/Office/Excel/Worksheets/WorksheetCollection.cs:213 | with sheets "A" and "A (2)", "A (2) (3)" is free |
| WorksheetCollections.IntendedNameIsFree | Utilities/Office/Excel/Worksheets/WorksheetCollection.cs:213 | with sheets "A" and "A (2)", "A (3)" is free |
| WorksheetCollections.AccumulatedName | Utilities/Office/Excel/Worksheets/WorksheetCollection.cs:208-229 | with sheets "A" and "A (2)", the as-written loop settles on "A (2) (3)" |
| WorksheetCollections.IntendedName | Utilities/Office/Excel/Worksheets/WorksheetCollection.cs:208-229 | with sheets "A" and "A (2)", the intended loop settles on "A (3)" |
| WorksheetCollections.UniqueNameAccumulatesSuffixes | Utilities/Office/Excel/Worksheets/WorksheetCollection.cs:208-229 | with sheets "A" and "A (2)", the as-written loop gives "A (2) (3)" where the intended one gives "A (3)" |
| WorksheetCollections.NamesOf | Utilities/Office/Excel/Worksheets/WorksheetCollection.cs:20 | the names listed are the sheets' names, position by position |
| WorksheetCollections.SheetsListed | Utilities/Office/Excel/Worksheets/WorksheetCollection.cs:20 | each sheet listed in index order is the sheet stored under its own index |
| WorksheetCollections.SheetsCovered | Utilities/Office/Excel/Worksheets/WorksheetCollection.cs:20 | every stored sheet is listed |
| WorksheetCollections.SheetsAscending | Utilities/Office/Excel/Worksheets/WorksheetCollection.cs:20 | sheets listed earlier have smaller indexes |
| WorksheetCollections.ClashesIffTaken | Utilities/Office/Excel/Worksheets/WorksheetCollection.cs:110-113 | a name clashes with the listed names exactly when some sheet has it, ignoring case |
| WorksheetCollections.FirstNamedFound | Utilities/Office/Excel/Worksheets/WorksheetCollection.cs:88-96 | a sheet with the name is found in index order exactly when some sheet has it |
| WorksheetCollections.FirstNamedIsFirst | Utilities/Office/Excel/Worksheets/WorksheetCollection.cs:93 | the sheet found has the name and no sheet with a smaller index has it |
| WorksheetCollections.ValidInsertIndex | Utilities/Office/Excel/Worksheets/WorksheetCollection.cs:195-206 | before loading the index is kept; once loaded it is clamped into 1..Count+1, an index already there is kept, and the result is the nearest valid index |
| WorksheetCollections.VisibilityAfterAsWritten | Office/Excel/Worksheets/Worksheet.cs:23 | as written, hiding always goes through and making a sheet visible is refused while at most one sheet is visible |
| WorksheetCollections.VisibilityAfter | Office/Excel/Worksheets/Worksheet.cs:23 | as intended, showing always goes through, hiding goes through while more than one sheet is visible, and no other sheet changes |
| WorksheetCollections.VisibilityKeepsOneVisible | Office/Excel/Worksheets/Worksheet.cs:23 | with the intended guard, a workbook with a visible sheet keeps one |
| WorksheetCollections.HidingLastVisibleAsWritten | Office/Excel/Worksheets/Worksheet.cs:23 | as written, hiding the only visible sheet leaves none visible |
| WorksheetCollections.ShowingRefusedAsWritten | Office/Excel/Worksheets/Worksheet.cs:23 | as written, a hidden sheet beside a single visible one cannot be shown; as intended it can |
| WorksheetCollections.Deselected | Office/Excel/Worksheets/Worksheet.cs:63-66 | every sheet is kept with its selection flag cleared |
| WorksheetCollections.DeselectAll | Office/Excel/Worksheets/Worksheet.cs:63-66 | the loop over the sheets in index order clears every selection flag |
| WorksheetCollections.WorksheetCollection.constructor | Utilities/Office/Excel/Worksheets/WorksheetCollection.cs:36-40 | a new collection holds no sheets |
| WorksheetCollections.WorksheetCollection.Get | Utilities/Office/Excel/Worksheets/WorksheetCollection.cs:64-72 | the sheet at a present index is returned, carrying that index; a missing index is ArgumentOutOfRange |
| WorksheetCollections.WorksheetCollection.Set | Utilities/Office/Excel/Worksheets/WorksheetCollection.cs:74-85 | the index must lie in 1..Count+1; a present index is overwritten, otherwise the sheet is added under its own index, which fails when that key is taken |
| WorksheetCollections.WorksheetCollection.ContainsName | Utilities/Office/Excel/Worksheets/WorksheetCollection.cs:110-113 | true exactly when some sheet has the name, ignoring case |
| WorksheetCollections.WorksheetCollection.GetByName | Utilities/Office/Excel/Worksheets/WorksheetCollection.cs:88-96 | the first sheet in index order whose name matches, ignoring case; none is ArgumentOutOfRange |
| WorksheetCollections.WorksheetCollection.Delete | Utilities/Office/Excel/Worksheets/WorksheetCollection.cs:151-178 | deleting the only sheet fails; otherwise a present sheet goes and every later sheet moves down one, and the result says whether a sheet went |
| WorksheetCollections.WorksheetCollection.Insert | Utilities/Office/Excel/Worksheets/WorksheetCollection.cs:231-249 | the sheets at or after the new sheet's index move up one and the new sheet takes the freed index |
| WorksheetCollections.WorksheetCollection.NewSheetName | Office/Excel/Worksheets/Worksheet.cs:121-124 | a new sheet is named "Sheet" and its index when no name is given, and the name is made legal and unique among the present sheets |
| WorksheetCollections.WorksheetCollection.InsertNew | Utilities/Office/Excel/Worksheets/WorksheetCollection.cs:132-136 | a new visible sheet with a unique name is inserted at the clamped index |
| WorksheetCollections.WorksheetCollection.Add | Utilities/Office/Excel/Worksheets/WorksheetCollection.cs:118-127 | a new visible sheet with a unique name is stored under Count+1, which fails when that key is taken |
| WorksheetCollections.WorksheetCollection.AddToCollection | Utilities/Office/Excel/Worksheets/WorksheetCollection.cs:47-50 | a sheet is stored under its own index, which must be free |
| WorksheetCollections.WorksheetCollection.SetVisibilityAsWritten | Office/Excel/Worksheets/Worksheet.cs:23 | the setter as written applies the as-written guard |
| WorksheetCollections.WorksheetCollection.SetVisibility | Office/Excel/Worksheets/Worksheet.cs:23 | the corrected setter applies the intended guard and keeps a visible sheet |
| WorksheetCollections.WorksheetCollection.SetSelected | Office/Excel/Worksheets/Worksheet.cs:59-70 | selecting a sheet first clears every flag, so it becomes the only selected sheet; the active tab becomes its position |
| Worksheets.ReplaceChar | Office/Excel/Worksheets/Worksheet.cs:298 | each occurrence of the character is replaced and every other character kept, the length unchanged |
| Worksheets.Replaced | Office/Excel/Worksheets/Worksheet.cs:295-299 | each character of the illegal set becomes '_' and every other character is kept |
| Worksheets.StripApostrophes | Office/Excel/Worksheets/Worksheet.cs:302-305 | one leading and then one trailing apostrophe are removed; a name without them is unchanged |
| Worksheets.ReplacedIsLegal | Office/Excel/Worksheets/Worksheet.cs:295-299 | after the replacement no illegal character remains |
| Worksheets.NoIllegalParts | Office/Excel/Worksheets/Worksheet.cs:302-313 | cutting, stripping and appending a space keep a name free of illegal characters |
| Worksheets.LegalName | Office/Excel/Worksheets/Worksheet.cs:293-316 | the legal name has at most 31 characters and holds none of the characters / \ : [ ] ? * |
| Worksheets.StripKeepsLegal | Office/Excel/Worksheets/Worksheet.cs:302-305 | stripping apostrophes keeps a name free of illegal characters |
| Worksheets.LegalNameOfLegal | Office/Excel/Worksheets/Worksheet.cs:293-316 | a name already in legal form is its own legal name |
| Worksheets.LegalNameOfReserved | Office/Excel/Worksheets/Worksheet.cs:308-309 | "history" in any case, otherwise legal, gets a trailing space and nothing else |
| Worksheets.ReplaceEach | Office/Excel/Worksheets/Worksheet.cs:295-299 | the loop over the illegal characters replaces each of them with '_' |
| Worksheets.GetLegalWorksheetName | Office/Excel/Worksheets/Worksheet.cs:293-316 | the method computes the legal name |
| Worksheets.StripEnds | Office/Excel/Worksheets/Worksheet.cs:302-305 | the two trims compute the name without its leading and trailing apostrophe |
| Worksheets.DoubleApostrophes | Office/Excel/Worksheets/Worksheet.cs:162 | doubling apostrophes leaves them in pairs, never shortens, and changes nothing without apostrophes |
| Worksheets.EscapedName | Office/Excel/Worksheets/Worksheet.cs:158-164 | the escaped name is the name between apostrophes, with its own apostrophes in pairs |
| Worksheets.Split | Office/Excel/Worksheets/Worksheet.cs:328 | splitting at a character yields at least one piece, none holding the separator, and joining them gives the text back |
| Worksheets.SplitJoin | Office/Excel/Worksheets/Worksheet.cs:328-336 | splitting a join of separator-free pieces gives the pieces back |
| Worksheets.Qualified | Office/Excel/Worksheets/Worksheet.cs:333 | each local address is put behind the escaped name and '!' |
| Worksheets.GetFullAddress | Office/Excel/Worksheets/Worksheet.cs:324-337 | the full address is the comma-separated local addresses, each qualified, joined again with commas |
| Worksheets.FullAddressOfOne | Office/Excel/Worksheets/Worksheet.cs:324-337 | a single local address gets the same full form as a range address |
| Worksheets.FullAddressParts | Office/Excel/Worksheets/Worksheet.cs:324-337 | when the sheet name has no comma, splitting the full address at commas gives one qualified address per local one |
| Worksheets.NoCommaInEscaped | Office/Excel/Worksheets/Worksheet.cs:162 | escaping adds no comma |
| Worksheets.NoCommaDoubled | Office/Excel/Worksheets/Worksheet.cs:162 | doubling apostrophes adds no comma |
| DefinedNames.IndexFrom | Utilities/Office/Excel/Workbook/DefinedName.cs:130 | the position found holds the character and none before it from the start does, or -1 when none does |
| DefinedNames.LastIndex | Utilities/Office/Excel/Workbook/DefinedName.cs:182 | the position found holds the character and none after it does, or -1 |
| DefinedNames.Unescape | Utilities/Office/Excel/Workbook/DefinedName.cs:158 | unescaping never lengthens a text and leaves one without apostrophes unchanged |
| DefinedNames.UnescapeDoubledPrefix | Utilities/Office/Excel/Workbook/DefinedName.cs:158 | unescaping the doubled form of a text gives the text back, whatever follows it |
| DefinedNames.UnescapeDoubled | Utilities/Office/Excel/Workbook/DefinedName.cs:158 | doubling the apostrophes and unescaping them again is the identity |
| DefinedNames.DoubledUnescaped | Utilities/Office/Excel/Workbook/DefinedName.cs:158 | a text whose apostrophes come in pairs is the doubled form of its unescaped text |
| DefinedNames.UnescapeWithoutPairs | Utilities/Office/Excel/Workbook/DefinedName.cs:158 | a text with no two adjacent apostrophes is left as it is |
| DefinedNames.ClosingQuote | Utilities/Office/Excel/Workbook/DefinedName.cs:144-149 | the closing apostrophe found is not followed by another one; reading past the end is ArgumentOutOfRange and a search that would start over forever is reported as such |
| DefinedNames.FindClosingQuote | Utilities/Office/Excel/Workbook/DefinedName.cs:144-149 | the inner loop over doubled apostrophes ends exactly where the closing-quote search does: the first apostrophe not followed by another, ArgumentOutOfRange past the end, or the endless restart |
| DefinedNames.AddressEnd | Utilities/Office/Excel/Workbook/DefinedName.cs:139-151 | the address ends at a comma or at -1; with no apostrophe ahead it ends at the next comma |
| DefinedNames.NextComma | Utilities/Office/Excel/Workbook/DefinedName.cs:130-155 | the comma found lies at or after the current position; with no comma ahead the address is the last |
| DefinedNames.AddressesFromAsWritten | Utilities/Office/Excel/Workbook/DefinedName.cs:127-168 | the loop as written yields at least one address |
| DefinedNames.AddressesFromStep | Utilities/Office/Excel/Workbook/DefinedName.cs:158-161 | one round of the loop adds the unescaped text up to the comma and continues after it |
| DefinedNames.AddressesFromLast | Utilities/Office/Excel/Workbook/DefinedName.cs:166 | without a further comma the rest of the text is the last address, unescaped |
| DefinedNames.AddressesFromFailure | Utilities/Office/Excel/Workbook/DefinedName.cs:146 | a failing comma search ends the whole loop with its error |
| DefinedNames.AddressesFromAdvance | Utilities/Office/Excel/Workbook/DefinedName.cs:158-161 | one round moves the address before the comma into those found |
| DefinedNames.FindNextComma | Utilities/Office/Excel/Workbook/DefinedName.cs:130-155 | the method computes the next comma of the loop as written |
| DefinedNames.GetAddressesFromAddressStringAsWritten | Utilities/Office/Excel/Workbook/DefinedName.cs:120-169 | the method computes the addresses as the loop as written cuts them |
| DefinedNames.SplitQuoted | Utilities/Office/Excel/Workbook/DefinedName.cs:122-123 | splitting at unquoted commas yields at least one piece |
| DefinedNames.Unescaped | Utilities/Office/Excel/Workbook/DefinedName.cs:158 | each piece is unescaped, position by position |
| DefinedNames.Addresses | Utilities/Office/Excel/Workbook/DefinedName.cs:120-169 | the intended split yields at least one address |
| DefinedNames.SplitQuotedJoin | Utilities/Office/Excel/Workbook/DefinedName.cs:122-123 | the pieces joined with commas are the text: nothing is lost or added |
| DefinedNames.SplitQuotedPieces | Utilities/Office/Excel/Workbook/DefinedName.cs:122-123 | every piece keeps its commas inside quotes and every piece but the last closes its quotes |
| DefinedNames.SplitQuotedConsumes | Utilities/Office/Excel/Workbook/DefinedName.cs:122-123 | a stretch whose commas are all quoted is taken into the current piece whole |
| DefinedNames.SplitQuotedJoined | Utilities/Office/Excel/Workbook/DefinedName.cs:122-123 | splitting a join of addresses that keep their commas quoted gives the addresses back |
| DefinedNames.WithoutCommas | Utilities/Office/Excel/Workbook/DefinedName.cs:132-135 | without a comma the list is one unescaped address, as written and as intended |
| DefinedNames.GetAddressesFromAddressString | Utilities/Office/Excel/Workbook/DefinedName.cs:120-169 | the corrected scan computes the intended split, cutting only at commas outside quoted sheet names |
| DefinedNames.SplitQuotedQuoteFree | Utilities/Office/Excel/Workbook/DefinedName.cs:122 | without apostrophes the intended split is string.Split at every comma |
| DefinedNames.SplitAtFirstComma | Utilities/Office/Excel/Workbook/DefinedName.cs:122 | string.Split is the text up to the first comma followed by the split of the rest |
| DefinedNames.AsWrittenQuoteFree | Utilities/Office/Excel/Workbook/DefinedName.cs:127-166 | without apostrophes the loop as written is string.Split of the rest of the text |
| DefinedNames.SplittersAgreeWithoutQuotes | Utilities/Office/Excel/Workbook/DefinedName.cs:120-169 | on a list without apostrophes the loop as written and the intended split agree with string.Split |
| DefinedNames.QuotedSecondAddressAsWritten | Utilities/Office/Excel/Workbook/DefinedName.cs:139-151 | as written, "A!A1,'B'!B2" comes back as one address, because the apostrophe search runs past the next comma |
| DefinedNames.QuotedSecondAddress | Utilities/Office/Excel/Workbook/DefinedName.cs:120-169 | the intended split of "A!A1,'B'!B2" gives the two addresses |
| DefinedNames.TwoAddresses | Utilities/Office/Excel/Workbook/DefinedName.cs:122-123 | two addresses with closed quotes and no unquoted comma come back apart |
| DefinedNames.LocalPart | Utilities/Office/Excel/Workbook/DefinedName.cs:182-191 | the local address is the text after the last '!', holding no '!', and the whole address without one |
| DefinedNames.SheetPart | Utilities/Office/Excel/Workbook/DefinedName.cs:182-188 | the sheet name is the text before the last '!' without surrounding apostrophes; an address without '!' or whose name is a single apostrophe is ArgumentOutOfRange |
| DefinedNames.LocalAddressesFrom | Utilities/Office/Excel/Workbook/DefinedName.cs:176-194 | every address contributes its local part, and the first address naming a sheet names it |
| DefinedNames.LocalParts | Utilities/Office/Excel/Workbook/DefinedName.cs:191 | one local part per address |
| DefinedNames.NamedLocalAddresses | Utilities/Office/Excel/Workbook/DefinedName.cs:184-191 | once a sheet name is known nothing can fail: the name stays and every address gives its local part |
| DefinedNames.FirstAddressNamesSheet | Utilities/Office/Excel/Workbook/DefinedName.cs:184-188 | the sheet name comes from the first address when that one names a sheet |
| DefinedNames.FirstAddressUnnamed | Utilities/Office/Excel/Workbook/DefinedName.cs:182-186 | an address without '!' before any sheet is named is ArgumentOutOfRange |
| DefinedNames.GetLocalAddresses | Utilities/Office/Excel/Workbook/DefinedName.cs:171-195 | the loop over the addresses computes the sheet name and the local parts |
| DefinedNames.LocalAddressesStep | Utilities/Office/Excel/Workbook/DefinedName.cs:180-192 | one round of the loop over the addresses |
| DefinedNames.LocalPartOfRangeAddress | Utilities/Office/Excel/Workbook/DefinedName.cs:182-191 | the local part of a qualified address is the local address it was built from |
| DefinedNames.SheetPartOfRangeAddress | Utilities/Office/Excel/Workbook/DefinedName.cs:186-188 | the sheet name of an address with a quoted sheet is the text between the quotes |
| DefinedNames.QualifiedQuotesClosed | Utilities/Office/Excel/Workbook/DefinedName.cs:107-108 | a qualified address keeps its commas inside the quoted sheet name and closes its quotes |
| DefinedNames.UnescapeQualified | Utilities/Office/Excel/Workbook/DefinedName.cs:158 | unescaping a qualified address gives its sheet name back between quotes |
| DefinedNames.AddressStringRoundTrip | Utilities/Office/Excel/Workbook/DefinedName.cs:82-195 | what GetAddressString writes for a sheet reads back, by the intended split, as the same sheet name and local addresses |
| DefinedNames.ClosingOverPairs | Utilities/Office/Excel/Workbook/DefinedName.cs:144-149 | inside a quoted name whose own apostrophes are doubled, the search stops at the quote that closes it |
| DefinedNames.NextCommaAfterQuote | Utilities/Office/Excel/Workbook/DefinedName.cs:139-151 | when the address opens with a quote whose name has only doubled apostrophes and no comma follows the closing quote before the end, the loop finds the comma at the end, or none when the text ends there |
| DefinedNames.QuotedAddressNextComma | Utilities/Office/Excel/Workbook/DefinedName.cs:139-151 | after an address starting with such a quoted name, the loop as written finds the comma that ends the address |
| DefinedNames.AsWrittenQualified | Utilities/Office/Excel/Workbook/DefinedName.cs:127-166 | the loop as written cuts a list of addresses of one escaped sheet where the intended split does |
| DefinedNames.AsWrittenAddressStringRoundTrip | Utilities/Office/Excel/Workbook/DefinedName.cs:72-117 | the reading as written takes back what GetAddressString writes: the same sheet name and local addresses |
| DefinedNames.ParsedWithoutQuotes | Utilities/Office/Excel/Workbook/DefinedName.cs:105-117 | on a list without apostrophes the reading is string.Split then the local parts |
| DefinedNames.FullAddressStringReadsBack | Utilities/Office/Excel/Workbook/DefinedName.cs:82-117 | the full address string of a name on a sheet with a legal name reads back as the same sheet name and local addresses |
| DefinedNames.DefinedName.Empty | Utilities/Office/Excel/Workbook/DefinedName.cs:31-34 | a bare name with no addresses and no sheet |
| DefinedNames.DefinedName.SetAddresses | Utilities/Office/Excel/Workbook/DefinedName.cs:72-80 | the addresses become the parsed local parts and the sheet is the first sheet with the parsed name, ignoring case, or none; a parse failure changes nothing |
| DefinedNames.DefinedName.GetAddressString | Utilities/Office/Excel/Workbook/DefinedName.cs:82-99 | the loop computes the address string |
| DefinedNames.EqualsIsEquivalence | Utilities/Office/Excel/Workbook/DefinedName.cs:62-66 | equality by name ignoring case and scope is reflexive, symmetric and transitive |
| DefinedNames.NewDefinedName | Utilities/Office/Excel/Workbook/DefinedName.cs:41-50 | a name is created exactly when its address string parses, with the given id, name and scope and the parsed addresses and sheet |
| DefinedNameCollections.FirstMatch | Office/Excel/Workbook/DefinedNameCollection.cs:45-49 | the name found is stored and passes the test, none is found exactly when every name fails it, and a name that cannot be tested is a null reference |
| DefinedNameCollections.FirstMatchIsFirst | Office/Excel/Workbook/DefinedNameCollection.cs:45-49 | the first name passing the test, all before it failing, is the one found |
| DefinedNameCollections.NamesListed | Office/Excel/Workbook/DefinedNameCollection.cs:84-87 | the names in id order are exactly the stored names |
| DefinedNameCollections.WritableIgnoringCase | Office/Excel/Worksheets/Worksheet.cs:293-316 | a sheet name differing only in case from a writable one is writable |
| DefinedNameCollections.PrintablePieces | Office/Excel/Worksheets/Worksheet.cs:328 | the pieces of a printable local address string are plain local addresses |
| DefinedNameCollections.PrintAddressReadsBack | Office/Excel/Workbook/DefinedNameCollection.cs:119-130 | the full address built for a print name on a writable sheet parses back into that sheet name and the pieces of the local address |
| DefinedNameCollections.PrintNameStored | Office/Excel/Workbook/DefinedNameCollection.cs:119-130 | on a writable sheet the stored print name holds the pieces of the local address, names that sheet ignoring case, and its address string parses back into the same sheet and pieces |
| DefinedNameCollections.DefinedNameCollection.constructor | Office/Excel/Workbook/DefinedNameCollection.cs:28-32 | a new collection holds no names |
| DefinedNameCollections.DefinedNameCollection.Find | Office/Excel/Workbook/DefinedNameCollection.cs:41-51 | the indexer returns the first name in id order on the same sheet, with the name ignoring case and the same scope |
| DefinedNameCollections.DefinedNameCollection.Search | Office/Excel/Workbook/DefinedNameCollection.cs:41-51 | the shared search returns the first name in id order passing the query's test |
| DefinedNameCollections.DefinedNameCollection.Contains | Office/Excel/Workbook/DefinedNameCollection.cs:53-56 | true exactly when a name is stored under the id |
| DefinedNameCollections.DefinedNameCollection.Get | Office/Excel/Workbook/DefinedNameCollection.cs:99-108 | the name stored under the id, or none |
| DefinedNameCollections.DefinedNameCollection.Delete | Office/Excel/Workbook/DefinedNameCollection.cs:77-81 | the name under the id goes; a missing id changes nothing |
| DefinedNameCollections.DefinedNameCollection.GenerateNewNameId | Office/Excel/Workbook/DefinedNameCollection.cs:151-154 | the new id is the smallest id from 0 not in use |
| DefinedNameCollections.DefinedNameCollection.AddDefinedNameToCollection | Office/Excel/Workbook/DefinedNameCollection.cs:156-163 | a name is stored under its own id unless that id is taken, in which case nothing changes |
| DefinedNameCollections.DefinedNameCollection.Insert | Office/Excel/Workbook/DefinedNameCollection.cs:58-75 | a name with the same sheet, name and scope takes the new addresses, written out and parsed again, and nothing is added; otherwise a new name is stored under the first unused id; no other name changes |
| DefinedNameCollections.DefinedNameCollection.InsertNew | Office/Excel/Workbook/DefinedNameCollection.cs:69-73 | the new name has the given name and scope, the re-parsed addresses and sheet, and is stored under the first unused id |
| DefinedNameCollections.DefinedNameCollection.DeleteWorksheetNames | Office/Excel/Workbook/DefinedNameCollection.cs:110-116 | every name on the sheet goes, walking in id order, and no other; a name without a sheet stops the walk with a null reference |
| DefinedNameCollections.DefinedNameCollection.DeleteNamesOn | Office/Excel/Workbook/DefinedNameCollection.cs:112-115 | the walk removes the ids the sweep selects |
| DefinedNameCollections.DefinedNameCollection.SetWorksheetPrintName | Office/Excel/Workbook/DefinedNameCollection.cs:119-130 | the inserted name carries the print name and worksheet scope and, on a writable sheet, the pieces of the local address and that sheet |
| DefinedNameCollections.DefinedNameCollection.SetWorksheetPrintTitles | Office/Excel/Workbook/DefinedNameCollection.cs:119-124 | the inserted name is the worksheet-scoped _xlnm.Print_Titles |
| DefinedNameCollections.DefinedNameCollection.SetWorksheetPrintArea | Office/Excel/Workbook/DefinedNameCollection.cs:125-130 | the inserted name is the worksheet-scoped _xlnm.Print_Area |
| DefinedNameCollections.DefinedNameCollection.GetWorksheetPrintName | Office/Excel/Workbook/DefinedNameCollection.cs:132-145 | the local addresses of the first name on the sheet with the print name, joined with commas; "" when there is none |
| DefinedNameCollections.DefinedNameCollection.GetWorksheetPrintTitlesDefinedName | Office/Excel/Workbook/DefinedNameCollection.cs:132-138 | the print titles of the sheet, or "" |
| DefinedNameCollections.DefinedNameCollection.GetWorksheetPrintAreaDefinedName | Office/Excel/Workbook/DefinedNameCollection.cs:139-145 | the print area of the sheet, or "" |
| DefinedNameCollections.Sweep | Office/Excel/Workbook/DefinedNameCollection.cs:110-116 | a walk no name without a sheet stops selects every name on the sheet |
| DefinedNameCollections.SweepStops | Office/Excel/Workbook/DefinedNameCollection.cs:112 | once a name without a sheet stops the walk, the names after it are not looked at |
| DefinedNameCollections.SweepOnlyOnSheet | Office/Excel/Workbook/DefinedNameCollection.cs:112 | every id the walk removes is that of a name on the sheet |
| DefinedNameCollections.SweepExact | Office/Excel/Workbook/DefinedNameCollection.cs:110-116 | a walk that is not stopped removes exactly the names on the sheet, and only stored names |
| DefinedNameCollections.DeleteWorksheet | Utilities/Office/Excel/Worksheets/WorksheetCollection.cs:151-178 | deleting the only sheet fails and changes nothing; a missing index changes nothing; otherwise the names on the sheet go, then the sheet goes and every later sheet moves down one |
| SharedStrings.ConcatAppend | Utilities/Office/Excel/Workbook/SharedString.cs:119-123 | appending a run appends its text to the joined value |
| SharedStrings.ConcatOfSameTexts | Utilities/Office/Excel/Workbook/SharedString.cs:122 | runs with the same texts join to the same value |
| SharedStrings.InitialRuns | Utilities/Office/Excel/Workbook/SharedString.cs:104-117 | becoming a font string, a non-empty plain value becomes one run without a font, an empty one no run, and the runs join to the value |
| SharedStrings.WithFontString | Utilities/Office/Excel/Workbook/SharedString.cs:39-47 | after AddFontString the string is a font string whose runs are the earlier runs and then the new one, and whose value is the old value followed by the run's text |
| SharedStrings.ContentsEqualIsEquivalence | Utilities/Office/Excel/Workbook/SharedString.cs:58-97 | shared-string equality is reflexive, symmetric and transitive |
| SharedStrings.EqualContentsHaveEqualValues | Utilities/Office/Excel/Workbook/SharedString.cs:58-97 | equal shared strings have equal values |
| SharedStrings.PlainDiffersFromFontString | Utilities/Office/Excel/Workbook/SharedString.cs:58-97 | a plain "abc" and a font string of the runs "a", "b", "c" with the same value are not equal, either way round |
| SharedStrings.SetIndexStays | Utilities/Office/Excel/Workbook/SharedString.cs:15 | once the index is set no assignment changes it |
| SharedStrings.IndexIsWrittenOnce | Utilities/Office/Excel/Workbook/SharedString.cs:15 | from -1 the index is the first non-negative value assigned, and stays -1 when there is none |
| SharedStrings.SharedString.constructor | Utilities/Office/Excel/Workbook/SharedString.cs:29-33 | a plain string with the value and no index |
| SharedStrings.SharedString.SetIndex | Utilities/Office/Excel/Workbook/SharedString.cs:15 | the index is taken only while it is -1 and only when non-negative; the content does not change |
| SharedStrings.SharedString.AddFontString | Utilities/Office/Excel/Workbook/SharedString.cs:39-47 | the string becomes a font string with the run appended, its value grows by the run's text, its index stays |
| SharedStrings.SharedString.Equals | Utilities/Office/Excel/Workbook/SharedString.cs:58-97 | two plain strings are equal exactly when their values are, a plain and a font string never are, and two font strings when their texts and fonts agree position by position |
| SharedStrings.ItemContent | Utilities/Office/Excel/Workbook/SharedString.cs:130-178 | reading an item gives a string whose value is the join of its runs |
| SharedStrings.ReadSharedString | Utilities/Office/Excel/Workbook/SharedString.cs:130-162 | the string read has no index and the content of the item: its text, or its runs added one by one |
| SharedStrings.WriteReadRoundTrip | Utilities/Office/Excel/Workbook/SharedString.cs:181-212 | reading what was written for a string gives the string back |
| SharedStrings.SharedStringCollection.constructor | Utilities/Office/Excel/Workbook/SharedStringCollection.cs:30-36 | a new table holds no strings and an empty dictionary |
| SharedStrings.SharedStringCollection.Get | Utilities/Office/Excel/Workbook/SharedStringCollection.cs:59-66 | the string under the index, carrying it, or null when there is none |
| SharedStrings.SharedStringCollection.ContainsMeansEqualEntry | Utilities/Office/Excel/Workbook/SharedStringCollection.cs:133-143 | Contains finds exactly the stored strings equal to the one looked up |
| SharedStrings.SharedStringCollection.NotContainedIsNotStored | Utilities/Office/Excel/Workbook/SharedStringCollection.cs:133-143 | a string that is not contained is none of the stored objects |
| SharedStrings.SharedStringCollection.AddDictionaryEntry | Utilities/Office/Excel/Workbook/SharedStringCollection.cs:122-131 | the string takes Count as its index unless it has one, is stored under it and, when plain, entered in the dictionary; an index in use is a duplicate key with nothing stored |
| SharedStrings.SharedStringCollection.AddValue | Utilities/Office/Excel/Workbook/SharedStringCollection.cs:106-112 | a value already in the dictionary changes nothing; otherwise a new plain string is entered under Count |
| SharedStrings.SharedStringCollection.IndexOfValue | Utilities/Office/Excel/Workbook/SharedStringCollection.cs:69-76 | a present value keeps its index; in a table indexed 0 to Count - 1 a new value gets index Count and the table stays so indexed |
| SharedStrings.SharedStringCollection.FindEqualFontString | Utilities/Office/Excel/Workbook/SharedStringCollection.cs:119 | the first stored font string, in index order, equal to the one sought, or none |
| SharedStrings.SharedStringCollection.AddSharedString | Utilities/Office/Excel/Workbook/SharedStringCollection.cs:114-120 | a string not contained is entered; a string still without an index takes that of the first equal stored font string, and a plain one finds none (InvalidOperation) |
| SharedStrings.SharedStringCollection.EnterRead | Utilities/Office/Excel/Workbook/SharedStringCollection.cs:100-103 | one item read enters a new string under Count, the others unchanged |
| SharedStrings.SharedStringCollection.IndexOfSharedString | Utilities/Office/Excel/Workbook/SharedStringCollection.cs:78-85 | the index returned is the string's index: Count for a new string in a densely indexed table, that of the equal stored font string otherwise |
| SharedStrings.LoadSharedStrings | Utilities/Office/Excel/Workbook/SharedStringCollection.cs:97-104 | loading enters every item in order under 0, 1, ...; two plain items with one value fail with a duplicate key |
| MergeCells.At | Utilities/Office/Excel/Worksheets/WorksheetData/MergeCell.cs:38 | a position without a cell has no merges |
| MergeCells.SetDown | Utilities/Office/Excel/Worksheets/WorksheetData/MergeCell.cs:41-42 | setting one cell's MergeDown changes that value and nothing else |
| MergeCells.SetAcross | Utilities/Office/Excel/Worksheets/WorksheetData/MergeCell.cs:60-61 | setting one cell's MergeAcross changes that value and nothing else |
| MergeCells.AbsorbDownAsWritten | Utilities/Office/Excel/Worksheets/WorksheetData/MergeCell.cs:34-45 | the MergeDown loop as written changes merge values only, keeping the shape of the sheet |
| MergeCells.AbsorbAcrossAsWritten | Utilities/Office/Excel/Worksheets/WorksheetData/MergeCell.cs:53-64 | the MergeAcross loop as written changes merge values only, keeping the shape of the sheet |
| MergeCells.CellAsWritten | Utilities/Office/Excel/Worksheets/WorksheetData/MergeCell.cs:28-67 | one cell of the walk as written changes merge values only |
| MergeCells.RowPassAsWritten | Utilities/Office/Excel/Worksheets/WorksheetData/MergeCell.cs:26-71 | the walk over one row keeps the shape of the sheet |
| MergeCells.PassAsWritten | Utilities/Office/Excel/Worksheets/WorksheetData/MergeCell.cs:24-72 | the walk over all rows keeps the shape of the sheet |
| MergeCells.Addresses | Utilities/Office/Excel/Worksheets/WorksheetData/MergeCell.cs:69-70 | one address per area |
| MergeCells.AddressesAppend | Utilities/Office/Excel/Worksheets/WorksheetData/MergeCell.cs:69-70 | the addresses of two runs of areas are those of the first followed by those of the second |
| MergeCells.AbsorbDownFacts | Utilities/Office/Excel/Worksheets/WorksheetData/MergeCell.cs:34-45 | after the MergeDown loop no cell below the merging one inside its final area merges down, MergeAcross values and other columns stay, a merging cell keeps a positive MergeDown, and with nothing merging below the loop changes nothing |
| MergeCells.AbsorbAcrossFacts | Utilities/Office/Excel/Worksheets/WorksheetData/MergeCell.cs:53-64 | after the MergeAcross loop no contained cell to the right inside the area merges across, MergeDown values and other rows stay, and with nothing merging to the right the loop changes nothing |
| MergeCells.DownMergeArea | Utilities/Office/Excel/Worksheets/WorksheetData/MergeCell.cs:30-48 | a cell with a MergeDown yields a column area from the cell down, whatever its MergeAcross; it spans exactly MergeDown rows when no cell inside merges down, and no cell inside merges down afterwards |
| MergeCells.AcrossMergeArea | Utilities/Office/Excel/Worksheets/WorksheetData/MergeCell.cs:49-67 | a cell with a MergeAcross and no MergeDown yields a row area ending at the column MergeAcross - 1 to its right, as given when nothing inside merges across |
| MergeCells.NoMergeNoArea | Utilities/Office/Excel/Worksheets/WorksheetData/MergeCell.cs:69 | a cell with neither merge yields no area and changes nothing |
| MergeCells.RowWithoutMerges | Utilities/Office/Excel/Worksheets/WorksheetData/MergeCell.cs:26-71 | a row without merges yields no area and changes nothing |
| MergeCells.SheetWithoutMerges | Utilities/Office/Excel/Worksheets/WorksheetData/MergeCell.cs:19-75 | a sheet none of whose cells merges has no merge areas and is left as it was |
| MergeCells.ExtentCovers | Utilities/Office/Excel/Worksheets/WorksheetData/Cell.cs:37-45 | the intended extent is at least the count and no merge starting inside it leaves it |
| MergeCells.ExtentLeast | Utilities/Office/Excel/Worksheets/WorksheetData/Cell.cs:37-45 | the intended extent is no larger than any other such extent |
| MergeCells.ExtentIsLeastClosed | Utilities/Office/Excel/Worksheets/WorksheetData/Cell.cs:37-45 | the intended extent is the least extent of at least the count that no merge starting inside it leaves |
| MergeCells.DownLine | Utilities/Office/Excel/Worksheets/WorksheetData/MergeCell.cs:34-39 | the MergeDown counts of the cells below, position by position |
| MergeCells.AcrossLine | Utilities/Office/Excel/Worksheets/WorksheetData/MergeCell.cs:53-58 | the MergeAcross counts of the cells to the right, 0 for columns the sheet lacks |
| MergeCells.ClearDown | Utilities/Office/Excel/Worksheets/WorksheetData/MergeCell.cs:41-42 | the cell merges down the extent and no cell in those rows below merges down |
| MergeCells.ClearAcross | Utilities/Office/Excel/Worksheets/WorksheetData/MergeCell.cs:60-61 | the cell merges across the extent and no contained cell in those columns merges across |
| MergeCells.CellCorrected | Utilities/Office/Excel/Worksheets/WorksheetData/Cell.cs:37-45 | the corrected walk step changes merge values only |
| MergeCells.DownClosedIsClosed | Utilities/Office/Excel/Worksheets/WorksheetData/Cell.cs:37-39 | no merge down starting below leaves the rows exactly when the line of counts is closed |
| MergeCells.AcrossClosedIsClosed | Utilities/Office/Excel/Worksheets/WorksheetData/Cell.cs:43-45 | no merge across starting to the right leaves the columns exactly when the line of counts is closed |
| MergeCells.CorrectedDownArea | Utilities/Office/Excel/Worksheets/WorksheetData/Cell.cs:37-39 | the corrected MergeDown area starts at the cell, reaches at least MergeDown rows below, contains every MergeDown area starting inside it, is the smallest such area, and leaves no merge down inside |
| MergeCells.CorrectedAcrossArea | Utilities/Office/Excel/Worksheets/WorksheetData/Cell.cs:43-45 | the corrected MergeAcross area reaches at least MergeAcross columns to the right, contains every MergeAcross area starting inside it, and is the smallest such area |
| MergeCells.DownAbsorptionOverextends | Utilities/Office/Excel/Worksheets/WorksheetData/MergeCell.cs:41 | as written, A1 down 2 with A2 down 1 gives A1:A4 where A1:A3 contains both |
| MergeCells.DownAbsorptionCutsShort | Utilities/Office/Excel/Worksheets/WorksheetData/MergeCell.cs:34-47 | as written, A1 down 5 with A5 down 1 gives A1:A4 and clears A5's merge, where A1:A6 contains both |
| MergeCells.AcrossEndAsWritten | Utilities/Office/Excel/Worksheets/WorksheetData/MergeCell.cs:66 | as written, MergeAcross 1 on A1 gives A1:A1 where MergeDown 1 gives A1:A2; corrected it is A1:B1 |
| MergeCells.MergeSheet.constructor | Utilities/Office/Excel/Worksheets/WorksheetData/MergeCell.cs:19-23 | the sheet holds the given merge settings and columns |
| MergeCells.MergeSheet.AbsorbDown | Utilities/Office/Excel/Worksheets/WorksheetData/MergeCell.cs:34-45 | the loop on the sheet's state computes the MergeDown fold as written |
| MergeCells.MergeSheet.AbsorbAcross | Utilities/Office/Excel/Worksheets/WorksheetData/MergeCell.cs:53-64 | the loop on the sheet's state computes the MergeAcross fold as written |
| MergeCells.MergeSheet.CellMerge | Utilities/Office/Excel/Worksheets/WorksheetData/MergeCell.cs:28-67 | one cell's step yields the area and the new settings of the walk as written |
| MergeCells.MergeSheet.RowMerges | Utilities/Office/Excel/Worksheets/WorksheetData/MergeCell.cs:26-71 | the walk over one row yields its areas in column order |
| MergeCells.MergeSheet.GetMergeCells | Utilities/Office/Excel/Worksheets/WorksheetData/MergeCell.cs:19-75 | the method returns the addresses of the merge areas in walk order and leaves the settings the walk leaves |
| PageSetups.SetCopies | Utilities/Office/Excel/Worksheets/WorksheetData/PrintSetup/PageSetup.cs:19 | a copy count of at most 0 is ignored; nothing else changes and the setup stays well formed |
| PageSetups.SetFirstPageNumber | Utilities/Office/Excel/Worksheets/WorksheetData/PrintSetup/PageSetup.cs:22 | a first page number of at most 0 is ignored; nothing else changes |
| PageSetups.SetFitToHeight | Utilities/Office/Excel/Worksheets/WorksheetData/PrintSetup/PageSetup.cs:24 | a negative height becomes -1 ("not set"); nothing else changes |
| PageSetups.SetFitToWidthAsWritten | Utilities/Office/Excel/Worksheets/WorksheetData/PrintSetup/PageSetup.cs:26 | as written, a negative width leaves the width alone and resets the height to -1 |
| PageSetups.SetFitToWidth | Utilities/Office/Excel/Worksheets/WorksheetData/PrintSetup/PageSetup.cs:26 | corrected, a negative width becomes -1 and the height is untouched |
| PageSetups.SetHorizontalDpi | Utilities/Office/Excel/Worksheets/WorksheetData/PrintSetup/PageSetup.cs:28 | a horizontal resolution of at most 0 is ignored; nothing else changes |
| PageSetups.SetVerticalDpi | Utilities/Office/Excel/Worksheets/WorksheetData/PrintSetup/PageSetup.cs:30 | a vertical resolution of at most 0 is ignored; nothing else changes |
| PageSetups.SetOrientation | Utilities/Office/Excel/Worksheets/WorksheetData/PrintSetup/PageSetup.cs:33 | the orientation None is ignored; nothing else changes |
| PageSetups.SetScale | Utilities/Office/Excel/Worksheets/WorksheetData/PrintSetup/PageSetup.cs:37 | the scale is capped at 400, any value up to 400 is kept, and nothing else changes |
| PageSetups.FitToWidthAsWrittenResetsHeight | Utilities/Office/Excel/Worksheets/WorksheetData/PrintSetup/PageSetup.cs:26 | as written, setting width -1 on a setup with height 2 and width 3 gives height -1 and width 3; corrected, height 2 and width -1 |
| PageSetups.DefaultHasValueAsWritten | Utilities/Office/Excel/Worksheets/WorksheetData/PrintSetup/PageSetup.cs:87-103 | as written, a new page setup has a value (a null id differs from "" and the scale 100 differs from 400); corrected, it has none |
| PageSetups.HasValueIffChanged | Utilities/Office/Excel/Worksheets/WorksheetData/PrintSetup/PageSetup.cs:87-103 | corrected, a well-formed page setup has a value exactly when it differs from a new one |
| PageSetups.SameSettings | Utilities/Office/Excel/Worksheets/WorksheetData/PrintSetup/PageSetup.cs:17-39 | two page setups that agree on every setting are equal |
| PageSetups.CopySetting | Utilities/Office/Excel/Worksheets/WorksheetData/PrintSetup/PageSetup.cs:111-172 | one setting is copied and every other setting stays |
| PageSetups.SettingNamed | Utilities/Office/Excel/Worksheets/WorksheetData/PrintSetup/PageSetup.cs:117-170 | an attribute name maps to the setting written under that name, or to none |
| PageSetups.SettingNamedOf | Utilities/Office/Excel/Worksheets/WorksheetData/PrintSetup/PageSetup.cs:117-168 | every setting is found again by the name it is written under |
| PageSetups.ApplyNumber | Utilities/Office/Excel/Worksheets/WorksheetData/PrintSetup/PageSetup.cs:122-162 | an integer applied through a numeric setter changes that setting only, except that a negative width resets the height |
| PageSetups.ApplyText | Utilities/Office/Excel/Worksheets/WorksheetData/PrintSetup/PageSetup.cs:119-167 | a flag, orientation or id applied changes that setting only; an unknown orientation is ignored |
| PageSetups.ApplySetting | Utilities/Office/Excel/Worksheets/WorksheetData/PrintSetup/PageSetup.cs:119-168 | applying a value fails exactly when the setting is numeric and the text is not an integer |
| PageSetups.ApplyAttribute | Utilities/Office/Excel/Worksheets/WorksheetData/PrintSetup/PageSetup.cs:117-170 | an attribute of unknown name fails the read; a successful read keeps the setup well formed |
| PageSetups.ReadPageSetup | Utilities/Office/Excel/Worksheets/WorksheetData/PrintSetup/PageSetup.cs:111-175 | reading applies the attributes in order over a new page setup, and a successful read is well formed |
| PageSetups.UnknownAttributeFails | Utilities/Office/Excel/Worksheets/WorksheetData/PrintSetup/PageSetup.cs:169-170 | an attribute of unknown name anywhere in the element fails the read |
| PageSetups.ReadBack | Utilities/Office/Excel/Worksheets/WorksheetData/PrintSetup/PageSetup.cs:179-202 | reading back what is written restores every setting except the id, which as written turns null into "" |
| PageSetups.ReadSetting | Utilities/Office/Excel/Worksheets/WorksheetData/PrintSetup/PageSetup.cs:115-172 | one written setting read back over a default restores it; an unwritten one holds its default |
| PageSetups.ReadOrientation | Utilities/Office/Excel/Worksheets/WorksheetData/PrintSetup/PageSetup.cs:146-156 | a written orientation (landscape, camel-cased) read back restores the orientation; an unwritten one is the default portrait |
| PageSetups.ReadNumber | Utilities/Office/Excel/Worksheets/WorksheetData/PrintSetup/PageSetup.cs:122-162 | a written integer read back restores its numeric setting |
| PageSetups.UnwrittenNumber | Utilities/Office/Excel/Worksheets/WorksheetData/PrintSetup/PageSetup.cs:186-196 | a numeric setting that is not written holds its default |
| PageSetups.ReadText | Utilities/Office/Excel/Worksheets/WorksheetData/PrintSetup/PageSetup.cs:119-167 | a written flag, orientation or id read back restores its setting |
| PageSetups.ReadSettings | Utilities/Office/Excel/Worksheets/WorksheetData/PrintSetup/PageSetup.cs:115-172 | reading back the attributes written for distinct settings takes on exactly those settings |
| PageSetups.InWriteOrder | Utilities/Office/Excel/Worksheets/WorksheetData/PrintSetup/PageSetup.cs:185-198 | every setting is written in its turn |
| PageSetups.ReadAllSettings | Utilities/Office/Excel/Worksheets/WorksheetData/PrintSetup/PageSetup.cs:111-202 | all settings written in order are read back into what ReadBack gives |
| PageSetups.ReadWrittenRoundTrip | Utilities/Office/Excel/Worksheets/WorksheetData/PrintSetup/PageSetup.cs:111-202 | corrected, reading back what is written for a well-formed page setup gives that page setup |
| PageSetups.ReadWrittenRoundTripAsWritten | Utilities/Office/Excel/Worksheets/WorksheetData/PrintSetup/PageSetup.cs:111-202 | as written, the read-back of a well-formed page setup is itself, but with "" for a null id |
| PageSetups.ScaleLostAsWritten | Utilities/Office/Excel/Worksheets/WorksheetData/PrintSetup/PageSetup.cs:100 | as written, a new page setup set to scale 400 is written as the empty id alone and reads back with scale 100 |
| PageSetups.WriteOrderAroundId | Utilities/Office/Excel/Worksheets/WorksheetData/PrintSetup/PageSetup.cs:194-196 | the id is written once, between the paper size and the scale |
| PageSetups.OthersUnwritten | Utilities/Office/Excel/Worksheets/WorksheetData/PrintSetup/PageSetup.cs:185-198 | of a new page setup at scale 400, no setting but the id is written |
| PageSetups.IdAttribute | Utilities/Office/Excel/Worksheets/WorksheetData/PrintSetup/PageSetup.cs:195 | a null id is written as the empty id attribute |
| PageSetups.EmptyIdRead | Utilities/Office/Excel/Worksheets/WorksheetData/PrintSetup/PageSetup.cs:143-145 | the empty id attribute reads back as an empty id |
| PageSetups.NothingWritten | Utilities/Office/Excel/Worksheets/WorksheetData/PrintSetup/PageSetup.cs:185-198 | settings none of which is written give no attributes |
| PageSetups.AttributesAppend | Utilities/Office/Excel/Worksheets/WorksheetData/PrintSetup/PageSetup.cs:185-198 | the attributes of joined setting lists are the joined attributes |
| PageSetups.NothingWrittenSplit | Utilities/Office/Excel/Worksheets/WorksheetData/PrintSetup/PageSetup.cs:185-198 | when only the middle settings are written, the attributes are theirs |

## Left out

- Columns.ColumnCollection.Insert: changes only the column dictionary. The source also moves every row's cells one column to the right (Office/Excel/Worksheets/WorksheetData/ColumnCollection.cs:125-128). That row-side half lives in the cell collection and is modelled there as CellCollections.CellCollection.Insert, but nothing here calls it for every row.
- Columns.ColumnCollection.Delete: changes only the column dictionary. The source also removes the deleted column's cells from every row and re-adds the later cells one column to the left (ColumnCollection.cs:141-165).
- CellCollections.CellCollection.Get: the model covers a collection whose parent is a row (`requires parent.RowParent?`). The column-parent path goes through the worksheet's rows (CellCollection.cs:89-90) and is not modelled.
- CellCollections.CellCollection.Set: the same restriction to a row parent. The column-parent path (CellCollection.cs:358-360) is not modelled.
- CellCollections.CellCollection.Delete: on a row, requires a consistent row (each cell stored under its own column index) and `index >= MinColumn` (1). For a smaller index the source throws partway through its loop (CellCollection.cs:158-168), after some cells have already moved, and that partial state is not modelled.
- Rows.RowCollection.InsertRowAsWritten: requires every row to sit under its own index (`Consistent()`). The public setter (RowCollection.cs:68-72) can store a row under another index. The source then selects and re-keys rows by their own Index (RowCollection.cs:123-131). What happens then depends on the dictionary's enumeration order, and it can be a duplicate-key exception. Such states are not modelled.
- Rows.RowCollection.Insert: the same restriction to rows stored under their own index, since it inserts through the internal Insert(Row).
- Rows.RowCollection.Delete: the same restriction. The source removes and re-adds rows by their own Index (RowCollection.cs:184-193). For example, storing a row with index 2 under key 1 of an empty collection and then deleting row 1 throws a duplicate-key exception in the source. That state is outside the model.
- Rows.RowCollection.CopyTo: the same restriction, through the internal Insert(Row).
- WorksheetCollections.WorksheetCollection.Delete: requires every sheet to sit under its own index (`Valid()`). The index setter (WorksheetCollection.cs:74-85) can store a sheet under another key. The source's Delete still runs there, selecting and re-keying sheets by their own Index (WorksheetCollection.cs:165-175). Such states are not modelled.
- WorksheetCollections.WorksheetCollection.Insert: the same restriction. The source selects and re-keys by sheet Index (WorksheetCollection.cs:231-249).
- WorksheetCollections.WorksheetCollection.InsertNew: the same restriction, through Insert.
- CellCollections.CellCollection.Get: a missing cell is built with `Worksheet.Columns[index]` (CellCollection.cs:354-355). That indexer creates the column in the sheet's column collection when it is missing (ColumnCollection.cs:63-71). The model does not change the column collection here.
- CellCollections.CellCollection.Pad: each blank cell added goes through the same column indexer (CellCollection.cs:340-355), so missing columns are created in the sheet. The model does not change the column collection.
- CellCollections.CellCollection.Insert: `Worksheet.Columns[index]` (CellCollection.cs:131) creates the column when it is missing. The model does not change the column collection.
- CellCollections.CellCollection.Delete: each moved cell takes `Worksheet.Columns[index - 1]` (CellCollection.cs:166), which creates that column when it is missing. The model does not change the column collection.
- WorksheetCells.WorksheetCells.Set: stores a copy of the cell bound to its row and column. The source rebinds the caller's own cell object (WorksheetCellCollection.cs:39-42), so the caller's reference sees the change. Object identity is not modelled.
- Ranges.Range.SetFontProperty: fonts are values. A range-level font in the source shares its Color object with the stored font and listens to its Updated event (Font.cs:59-66, 98). That aliasing, and the events that push a new style index when a shared color changes, are not modelled.
- CellFormats.GetAlignment, CellFormats.GetBorders, CellFormats.GetFill, CellFormats.GetFont, CellFormats.GetNumberFormat: these getters do not cache. The source stores what a getter builds in the format's fields (CellFormat.cs:95-149). The writer then emits an apply flag for every field a getter has filled in, for instance during Equals (CellFormat.cs:196-219). The model writes exactly the parts the format holds explicitly.
- NumberFormats.Classify: currency parts are not recognised. In the source a code such as "[$€-407]0" matches the currency group of the numeric pattern and is Numeric (NumberFormat.cs:197-202). The model classifies by the other groups only. The culture-dependent .NET format strings and the regex internals are also not modelled.
- NumberFormats.GetFormattedValue: returns the rendering only. The source stores the classification of an untyped format in the format object itself, and on a null code it has already set the type to General when the null dereference is raised; the model does not keep either change.
- TimeConverter.SerialToDateTime: a .NET double is modelled as an exact `real`. NaN, infinities and binary rounding are not represented, and serial dates use whole days and seconds.
- TimeConverter.DateTimeToSerial: same `real` model of double.
- Columns.LoadedColumn: column widths are exact reals. The source's double rounding of the +0.83 adjustment, and AutoFit's character-width estimates, are not modelled.
- ColumnNames.ColumnIndex: integers are unbounded, so the overflow of `(int)Math.Pow(26, n)` on very long names is not modelled.
- ColumnNames.AddressColumnIndex: upper-casing folds ASCII letters only, where the source's ToUpper depends on the culture.
- ColumnNames.TryParse: accepts an optional '-' and decimal digits only. .NET's int.TryParse also accepts surrounding whitespace and a leading '+', and rejects values outside 32 bits.
- Helpers.ParseInt: accepts an optional '-' and decimal digits only, and reports every other text as `Err(InvalidCast)`. .NET's int.Parse also accepts surrounding whitespace and '+', and throws FormatException or OverflowException. The attribute reader's GetIntValue is not part of this model.
- Helpers.ToUpper: ASCII only; no culture-dependent case mapping.
- Helpers.ToLower: ASCII only; case-insensitive name comparisons use it.
- Colors: Tint is a `real` compared for equality only. Its floating-point effect on rendering is not modelled.
- MergeCells.MergeSheet.GetMergeCells: works on a given grid of merge settings. In the source, the Rows and Cells indexers used during the walk create missing rows and cells (MergeCell.cs:38, 57), and those new blank entries are not modelled.
- SharedStrings.SharedStringCollection.EnterRead: takes the strings already read. The XML reading of the shared-string part, and the snapshot it is read through, are not modelled.
- WorksheetCollections.WorksheetCollection: ActiveWorksheet (WorksheetCollection.cs:29) is not modelled. It only reads the selected sheet.
- Rows.RowCollection: GetFirstNonBlankRow and FindRowsByCellValue (RowCollection.cs:147-175) are not modelled. They are searches over row text outside the padding and shifting logic.
- Rows.RowCollection.CopyTo: moves values between collections. The Clone and CloneTo of rows, columns and worksheets, which deep-copy their cells into another workbook, are not modelled.
- Columns.ColumnCollection.CopyTo: copies the column values only. Column.CopyTo's copying of the column's cells is not modelled.
- Worksheets: the DataTable export (ToDataTable, AddDataColumn), UsedRange, and the SheetDimension writer are not modelled. They are System.Data plumbing and package output.
- PageSetups.ReadPageSetup: takes the element's attributes as a list of name and value pairs. The XML reader, the writer's element framing, Save and the other data-access readers are not modelled. The model keeps only the attribute values and their order.
- XML and package I/O: the OpenXML SDK readers and writers, package parts, drawings, file paths and the cleanup retry loop are not modelled. Only the attribute lists that the readers and writers exchange are modelled, as sequences of name and value pairs.
- Concurrency and the ambient converter cache are not modelled. Converters are explicit instances with their memo dictionaries as fields.

## Findings

Each row names a member that models the code as written and exhibits the discrepancy, and a corrected member with the intended property proved about it. The public members of the model run the code as written.

| source | as written | input that shows it | evidently intended | confidence | as-written member | corrected member |
|---|---|---|---|---|---|---|
| Utilities/Office/Excel/Workbook/DefinedName.cs:139-151 | the search for a closing apostrophe starts from the first comma and runs past it, so a quoted sheet name in a later address swallows the comma before it | "A!A1,'B'!B2" reads as one address on a sheet named "A!A1,'B'" | two addresses, "A!A1" and "'B'!B2", cut only at commas outside quoted sheet names | medium, not executed | DefinedNames.QuotedSecondAddressAsWritten | DefinedNames.QuotedSecondAddress |
| Utilities/Office/Excel/Worksheets/WorksheetCollection.cs:208-229 | each clashing round appends " (n)" to the previous candidate, not to the original name | sheets "A" and "A (2)", adding "A" | "A (3)", where the loop gives "A (2) (3)" | high, not executed | WorksheetCollections.GetUniqueWorksheetNameAsWritten | WorksheetCollections.GetUniqueWorksheetName |
| Utilities/Office/Excel/Worksheets/WorksheetCollection.cs:208-229 | (as above) the suffixes accumulate | sheets "A" and "A (2)" | the legal name with a single version suffix | high, not executed | WorksheetCollections.UniqueNameAccumulatesSuffixes | WorksheetCollections.GetUniqueWorksheetName |
| Office/Excel/Worksheets/Worksheet.cs:23 | the visibility guard is inverted: hiding always goes through | hiding the only visible sheet leaves no visible sheet | hiding is refused while it would leave no visible sheet | high, not executed | WorksheetCollections.HidingLastVisibleAsWritten | WorksheetCollections.VisibilityKeepsOneVisible |
| Office/Excel/Worksheets/Worksheet.cs:23 | making a sheet visible is refused while at most one sheet is visible | a hidden sheet beside a single visible one cannot be shown | showing a sheet always goes through | high, not executed | WorksheetCollections.ShowingRefusedAsWritten | WorksheetCollections.VisibilityAfter |
| Utilities/Office/Excel/Worksheets/WorksheetData/PrintSetup/PageSetup.cs:26 | a negative FitToWidth assigns -1 to the height field | height 2, width 3, then width -1: height -1, width 3 | width -1 ("not set"), height unchanged, as FitToHeight does at line 24 | high, not executed | PageSetups.FitToWidthAsWrittenResetsHeight | PageSetups.SetFitToWidth |
| Utilities/Office/Excel/Worksheets/WorksheetData/PrintSetup/PageSetup.cs:97-100 | HasValue compares the null relationship id with "" and the scale with 400 instead of its default 100 | a new page setup has a value, so an empty page setup element is written | a new page setup has no value | high, not executed | PageSetups.DefaultHasValueAsWritten | PageSetups.HasValueIffChanged |
| Utilities/Office/Excel/Worksheets/WorksheetData/PrintSetup/PageSetup.cs:196 | the writer leaves out a scale of 400 rather than the default 100 | scale 400 is written as the empty id alone and reads back as scale 100 | every well-formed page setup reads back as itself | high, not executed | PageSetups.ScaleLostAsWritten | PageSetups.ReadWrittenRoundTrip |
| Office/Excel/Worksheets/WorksheetData/ColumnRange.cs:87-89 | a column similar to the previous one extends the range even across a gap in the indexes | similar columns 1 and 3 become the one range 1..3, which loads back a column 2 | ranges 1..1 and 3..3 | medium, not executed | Columns.GapMergedAsWritten | Columns.GetColumnRanges |
| Office/Excel/Worksheets/WorksheetData/ColumnRange.cs:100 | the final range is added even when there are no columns, from null start and end columns | a worksheet without columns raises a null reference | no ranges | high, not executed | Columns.CollectRanges | Columns.GetColumnRanges |
| Office/Excel/Worksheets/WorksheetData/ColumnCollection.cs:228 | loading goes through the Width setter, which adds 0.83 to the stored width again | a width-10 column loads as 10.83, and after another write and load as 11.66 | a write followed by a load gives back the same widths | medium, not executed | Columns.LoadAsWrittenDriftsWidth | Columns.RoundTrip |
| Utilities/Office/Excel/Utilities/ColumnIndexConverter.cs:57 | the upper-cased column name is removed from the address as given, so a lower-case address keeps its letters and the row does not parse | "a1": column 1, row 0 | row 1, as for "A1" | high, not executed | ColumnNames.LowerCaseAddressLosesRow | ColumnNames.CellIndexesOfCellAddress |
| Utilities/Office/Excel/Styles/Alignment.cs:96,99 | the reader compares the written camel-case names ("center") case-sensitively with the member names ("Center") and falls back to code 0 | a centred alignment reads back as the default alignment | every alignment reads back as itself | high, not executed | Alignments.ReadAfterWriteLosesHorizontal | Alignments.ReadAfterWriteCorrected |
| Office/Excel/Worksheets/WorksheetData/CellCollection.cs:261-272 | with ignoreCase the search skips the text comparison and compares values case-sensitively | a cell holding "Abc" is not found by "abc" with ignoreCase | a case-insensitive comparison of the text | high, not executed | CellCollections.IgnoreCaseSearchMissesCell | CellCollections.MatchesAsWrittenDiffersOnlyIgnoringCase |
| Office/Excel/Worksheets/WorksheetData/CellCollection.cs:238-246 | a cell is moved only when its key differs from its column index, which never holds in a consistent row | inserting a cell at column 1 of a row holding a cell at 1 replaces the old cell | the old cell moves to column 2 | medium, not executed | CellCollections.InsertAsWrittenLosesCell | CellCollections.CorrectedShifts |
| Utilities/Office/Excel/Styles/NumberFormatCollection.cs:62-64 | the custom formats are searched only after a built-in hit, and their answer replaces it | "0.00" (built-in 2) with no custom twin gives null | the built-in match, else a custom match | high, not executed | NumberFormatTables.CodeLookupAsWrittenMissesBuiltIn | NumberFormatTables.CodeLookup |
| Utilities/Office/Excel/Worksheets/WorksheetData/MergeCell.cs:34-47 | a nested MergeDown found k rows below adds MergeDown - k + 1 rows, one more than reaching the nested area's end needs | A1 down 2 with A2 down 1 gives A1:A4 | A1:A3, the least area holding both merges | medium, not executed | MergeCells.DownAbsorptionOverextends | MergeCells.CorrectedDownArea |
| Utilities/Office/Excel/Worksheets/WorksheetData/MergeCell.cs:34-47 | (as above) when the nested count is smaller than its offset the sum shrinks the area, and the nested merge is cleared all the same | A1 down 5 with A5 down 1 gives A1:A4 and clears A5's merge | A1:A6 | medium, not executed | MergeCells.DownAbsorptionCutsShort | MergeCells.CorrectedDownArea |
| Utilities/Office/Excel/Worksheets/WorksheetData/MergeCell.cs:53,66 | the MergeAcross area ends MergeAcross - 1 columns to the right, where the MergeDown area ends MergeDown rows below | MergeAcross 1 on A1 gives A1:A1, while MergeDown 1 gives A1:A2 | A1:B1: MergeAcross counts the cells to the right (Cell.cs:43) | medium, not executed | MergeCells.AcrossEndAsWritten | MergeCells.CorrectedAcrossArea |
