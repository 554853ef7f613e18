# KiCad reannotation and BOM export, modelled in Dafny

This project models the scripting core of nrclark/kinetis-eval's KiCad tooling.

- **`kicad/scripts/annotate_pcb.py`** and its older twin **`kicad/back_annotate.py`** reannotate a board by placement:
  - every footprint on the board becomes a record;
  - the coordinates are normalised to [-1, 1];
  - the records are sorted by a placement key;
  - each record receives a new designator, `<type><n>`, numbered within its run of equal type.
- The new designators are written into the board. They are then written into the schematic and into the auto-generated net names of the saved board file. Both rewrites use a two-phase marker protocol:
  - every replacement writes the new name behind a private `\x01` byte;
  - after all pairs are done, the markers are stripped in one pass;
  - so swaps and chains of renames come out right.
- **`kicad/bom_export.py`** builds the bill of materials:
  - it groups components with identical fields through an encoded descriptor string;
  - it sorts designator lists numerically by zero-padding them;
  - it orders the line items, numbers them and renders a tab-separated table.

Modules:

| file | module | models |
|---|---|---|
| `results.dfy` | `Results` | Python exceptions as `Failure`, and `Option`/`Result` |
| `text.dfy` | `Text` | `str.replace`, `split`, `join`, `strip`, `split()` tokens, string order, `str(int)`, `int(str)`, `zfill`, ASCII `lower` |
| `stable_sort.dfy` | `StableSort` | `sorted` as a stable insertion sort: sorted, a permutation, and stable |
| `reannotate.dfy` | `Reannotate` | `get_module_records`, `scale_records`, `sort_records`, `calculate_remaps` |
| `template.dfy` | `Template` | the Python 2 `re.sub` replacement template: escapes, octal characters, group references and their errors |
| `schematic.dfy` | `Schematic` | `remap_schematic` on text: the declaration-line pattern, the quoted references, the dump, the counter and dry-run |
| `schematic_document.dfy` | `SchematicDocument` | schematics as structured documents; the theorem that the text pass renames every designator at once |
| `pcb.dfy` | `Pcb` | `remap_pcb`: designators set on the board, the net pattern, the net rewrite, the counters |
| `pcb_document.dfy` | `PcbDocument` | board files as structured documents; the theorem that the net pass renames every net at once |
| `refdes.dfy` | `Refdes` | `sort_refdes_string` |
| `dicts.dfy` | `Dicts` | Python dicts of strings, as association lists in insertion order |
| `bom.dfy` | `Bom` | `group_items` |
| `bom_report.dfy` | `BomReport` | the `.txt` suffix, `bom_index` numbering, column selection and the report text in `main` |

Where the docstrings and the code disagree, the model follows the code:

- **Sort key order.** `sort_records` sorts by the flip flag first, then by the type. The local names at `annotate_pcb.py:83-84` are swapped, so the docstring's "type, then side" does not hold. As a result, numbering is unique only within each run of equal type: `Reannotate.SideFirstNumberingRepeats` exhibits `C1` handed out twice.
- **The dump does not stop the pass.** When the distinct declaration matches are not exactly one, the `.dump` file gets the buffer as it stands at that moment and processing goes on. It fails only through `matches[0]` when there is no match at all.
- **Normalising an empty record list raises nothing.** A non-empty list whose coordinates are all zero raises ZeroDivisionError before any record changes.

## Model

| member | source | states |
|---|---|---|
| Reannotate.LeadingLetters | kicad/scripts/annotate_pcb.py:48 | the type prefix is the longest prefix of ASCII letters: a prefix, all letters, and followed by a non-letter or the end |
| Reannotate.GetModuleRecords | kicad/scripts/annotate_pcb.py:36-52 | the extraction loop returns exactly `Extract` of the board: records for the kept modules, or the first failure |
| Reannotate.ExtractSucceeds | kicad/scripts/annotate_pcb.py:40-48 | extraction succeeds iff every module is skipped for `**` or has an ASCII designator starting with a letter |
| Reannotate.ExtractFailure | kicad/scripts/annotate_pcb.py:40-48 | a failure comes from the first unextractable module: UnicodeError for a non-ASCII designator, otherwise IndexError |
| Reannotate.ExtractDescribes | kicad/scripts/annotate_pcb.py:39-51 | the records are the modules without `**`, in board order, each with its reference, position, side, handle and non-empty letter prefix |
| Reannotate.ExtractKeepsEveryModule | kicad/back_annotate.py:21-30 | without the `**` filter, record k is module k's record, for every module |
| Reannotate.MaxAbs | kicad/scripts/annotate_pcb.py:60-64 | the maximum bounds every coordinate's magnitude and is attained by one of them; an empty list keeps the sentinel |
| Reannotate.ScaleRecords | kicad/scripts/annotate_pcb.py:55-70 | the in-place loop succeeds exactly when `Scaled` does and then leaves the scaled records in the array; on failure the array is unchanged |
| Reannotate.MaxCoordinate | kicad/scripts/annotate_pcb.py:60-64 | the first loop of `scale_records` finds the largest absolute value of any coordinate, `MaxAbs` of the records: at least every `abs(x)` and `abs(y)` and equal to one of them (-1 standing in for the initial `-Inf` when there are none) |
| Reannotate.DivideAll | kicad/scripts/annotate_pcb.py:67-68 | the second loop replaces every record in place by its coordinates divided by that maximum, exactly the `Scaled` records |
| Reannotate.Normalise | kicad/scripts/annotate_pcb.py:67-68 | a record divided by the maximum multiplies back to its coordinates, and its other fields are unchanged |
| Reannotate.ScaledFails | kicad/scripts/annotate_pcb.py:60-68 | scaling raises ZeroDivisionError iff the list is non-empty and every coordinate is zero |
| Reannotate.ScaledBounds | kicad/scripts/annotate_pcb.py:60-68 | after scaling every coordinate lies in [-1, 1], some coordinate has magnitude exactly 1, and the other fields are unchanged |
| Reannotate.Round | kicad/scripts/annotate_pcb.py:85-86 | Python 2 `round` gives the integer within one half of its argument, non-negative for non-negative input |
| Reannotate.KeyOf | kicad/scripts/annotate_pcb.py:81-87 | the key takes the side and the type from the record; its row is `mult*y` rounded to within one half, and its sweep is eight times the rounded `mult*x` plus the row |
| Reannotate.SortRecords | kicad/scripts/annotate_pcb.py:73-90 | the sorted records are a permutation of the input |
| Reannotate.KeyLeTotalOrder | kicad/scripts/annotate_pcb.py:81-87 | the lexicographic order on `(flipped, type, 8*qx+qy, qy)` is a total order |
| Reannotate.RecordLePreorder | kicad/scripts/annotate_pcb.py:81-89 | comparing records by their key is a total preorder, as `sorted` needs |
| Reannotate.SortRecordsSpec | kicad/scripts/annotate_pcb.py:81-89 | `sort_records` returns a permutation, ascending in the key, with every top-side record before every bottom-side one, and records of equal key in input order |
| Reannotate.PeersShareKey | kicad/back_annotate.py:45-53 | two records are tied by the sort exactly when their keys are equal |
| Reannotate.KeyAtOrigin | kicad/scripts/annotate_pcb.py:85-87 | a record at the origin has sweep and row index 0 |
| Reannotate.ExampleOrder | kicad/scripts/annotate_pcb.py:83-89 | bottom C7, top R3 and top C4 at one spot sort as C4, R3, C7: the side decides first |
| Reannotate.RunIndex | kicad/scripts/annotate_pcb.py:102-106 | the running index of record i is between 1 and i+1 |
| Reannotate.CalculateRemaps | kicad/scripts/annotate_pcb.py:93-108 | the in-place loop leaves exactly `Remapped` of the old records in the array |
| Reannotate.NewRefParts | kicad/scripts/annotate_pcb.py:107 | a new designator is its record's type followed by a decimal number without leading zero whose value is the running index |
| Reannotate.RemappedShape | kicad/scripts/annotate_pcb.py:98-108 | same length; every field except the new designator is unchanged; each new designator is the type followed by a decimal number without leading zero |
| Reannotate.RunNumbering | kicad/back_annotate.py:55-64 | within a maximal run of equal type the indices are 1, 2, ..., k in order and the new designators are type + index |
| Reannotate.RunIndexStep | kicad/scripts/annotate_pcb.py:103-106 | inside a run the index goes up by one per record |
| Reannotate.RunStart | kicad/scripts/annotate_pcb.py:103-105 | every record's run starts at a record with index 1, with the same type all along |
| Reannotate.DesignatorParts | kicad/scripts/annotate_pcb.py:107 | a letter prefix followed by `str(n)` determines both the prefix and n |
| Reannotate.LeadingLettersOf | kicad/scripts/annotate_pcb.py:48 | the letter prefix of a new designator is its type |
| Reannotate.NewRefsDistinctIffContiguous | kicad/scripts/annotate_pcb.py:102-107 | the new designators are pairwise distinct iff each type forms one contiguous run |
| Reannotate.DistinctWhenTypesOneSided | kicad/scripts/annotate_pcb.py:81-107 | when every type sits on one side only, sorting then numbering gives distinct designators |
| Reannotate.SideFirstNumberingRepeats | kicad/scripts/annotate_pcb.py:83-107 | top C, top R, bottom C get C1, R1, C1: numbering is not globally unique |
| Schematic.MatchingLines | kicad/scripts/annotate_pcb.py:192-193 | `re.findall` with `re.M` returns lines that each match the declaration pattern for the old designator |
| Schematic.RemapSchematic | kicad/scripts/annotate_pcb.py:176-233 | the loop over the records computes exactly `RemapSchematicSpec`: written file, dump, counter and failure |
| Schematic.RenameStep | kicad/scripts/annotate_pcb.py:185-222 | one pass of the loop body is exactly `Step`: an unchanged designator is skipped; otherwise the counter goes up, the declaration and the quoted names are rewritten unless dry-run, a dump is written when the declaration is not unique, and no declaration at all, or one of a single word, ends the pass with IndexError, as does an error in the `re.sub` template |
| Schematic.FailureStays | kicad/scripts/annotate_pcb.py:200 | once the pass has raised (at `matches[0]`, `split()[1]` or `re.sub`), nothing further changes |
| Schematic.FailureStaysAfter | kicad/back_annotate.py:85 | a failure after the first n records is the outcome of the whole loop |
| Schematic.StepsCount | kicad/scripts/annotate_pcb.py:188-191 | the counter equals the number of records whose designator changes; in dry-run the buffer is untouched |
| Schematic.RemapSchematicOutcome | kicad/scripts/annotate_pcb.py:184-233 | the written file holds no marker; dry-run writes nothing and dumps only the original; the counter counts the changing records |
| Schematic.DryRunDump | kicad/back_annotate.py:90-106 | in dry-run the buffer after every record is the text read |
| Schematic.StepMatches | kicad/scripts/annotate_pcb.py:192-222 | one rename: the dump is written iff the distinct matches are not exactly one; no match, or a first match of one word, gives IndexError; otherwise `L <type> \x01new` is a `re.sub` template: an error in it ends the pass with the buffer as it was, else the substituted text gets `"old"` replaced by `"\x01new"`; a type and name without a backslash turn every matching line into exactly `L <type> \x01new` |
| Schematic.SubstituteLiteral | kicad/scripts/annotate_pcb.py:210-211 | `re.sub` with a template without a backslash replaces every matching line by the template itself |
| Template.LiteralTemplate | kicad/scripts/annotate_pcb.py:211 | a template without a backslash is read as its own characters |
| Template.FillChars | kicad/scripts/annotate_pcb.py:211 | literal pieces refer to no group and fill in to their own text whatever the match |
| Template.ParseEscape | kicad/back_annotate.py:93 | doubling every backslash makes any text a template that stands for itself |
| Template.ParseKnownEscape | kicad/scripts/annotate_pcb.py:211 | `\a \b \f \n \r \t \v \\` in the template stand for one character each |
| Template.ParseUnknownEscape | kicad/scripts/annotate_pcb.py:211 | any other escape that is not a digit or `\g` is kept as written, backslash and all |
| Template.ParseGroupDigit | kicad/scripts/annotate_pcb.py:211 | `\1` to `\9` not followed by a digit refer to a group the declaration pattern lacks, so filling the template in fails |
| Template.OctalExample | kicad/scripts/annotate_pcb.py:211 | three octal digits are one character: `\101` is `A` |
| Template.WholeMatchExample | kicad/scripts/annotate_pcb.py:211 | `\g<0>` refers to the whole match |
| Template.UnknownNameExample | kicad/scripts/annotate_pcb.py:211 | `\g<x>` names an unknown group: IndexError |
| Template.LateBackslashExample | kicad/scripts/annotate_pcb.py:211 | in `\g<x>\` the lone backslash is read before the name is looked up: `re.error` |
| Template.NegativeGroupExample | kicad/scripts/annotate_pcb.py:211 | `\g<-1>` is `re.error` |
| SchematicDocument.DeclLineOfDecl | kicad/scripts/annotate_pcb.py:192-193 | a well-formed declaration `L <type> <name>` matches the pattern for `old` iff its name is `old`, unmarked |
| SchematicDocument.PlainNoDecl | kicad/scripts/annotate_pcb.py:192-193 | a well-formed line that is not a declaration never matches |
| SchematicDocument.DeclTokens | kicad/scripts/annotate_pcb.py:200-201 | `match.split()[1]` of a declaration is its symbol |
| SchematicDocument.NewDeclLiteral | kicad/scripts/annotate_pcb.py:203 | the new declaration line of a well-formed symbol and designator holds no backslash, so `re.sub` writes it as it is |
| SchematicDocument.MapDocCompose | kicad/scripts/annotate_pcb.py:184-222 | renaming twice is renaming once by the composed map |
| SchematicDocument.DocClean | kicad/scripts/annotate_pcb.py:228 | stripping the markers from a well-formed schematic unmarks every name |
| SchematicDocument.DocStep | kicad/scripts/annotate_pcb.py:192-222 | on a well-formed schematic one rename finds one declaration, writes no dump, and marks-and-renames exactly the unmarked old name |
| SchematicDocument.RefAfterLookup | kicad/scripts/annotate_pcb.py:184-222 | with distinct old names, the renames applied in turn rename each name once, by lookup among the original names |
| SchematicDocument.PassOnDoc | kicad/scripts/annotate_pcb.py:184-222 | the whole loop on a renameable schematic is the document mapped by the accumulated renames, counting the changing ones |
| SchematicDocument.RemapSchematicRenames | kicad/scripts/annotate_pcb.py:184-233 | `remap_schematic` writes the schematic with every designator replaced by its new name at once, so swaps and chains are right; no dump; counter = changing renames |
| Pcb.Renames | kicad/scripts/annotate_pcb.py:118-143 | one (old, new) pair per record, in order |
| Pcb.Relabelled | kicad/scripts/annotate_pcb.py:118-129 | setting designators keeps the number of modules |
| Pcb.ProcessedCountChanging | kicad/scripts/annotate_pcb.py:118-141 | with the skip the counters count changing records; without it, every record |
| Pcb.SetReferences | kicad/scripts/annotate_pcb.py:115-129 | the loop sets each processed record's module to its new designator unless dry-run, and counts the processed records |
| Pcb.RelabelledSpec | kicad/scripts/annotate_pcb.py:118-128 | with distinct handles each record's module ends with its new designator and no other module changes |
| Pcb.RelabelledSkipAgrees | kicad/back_annotate.py:112-117 | setting unchanged designators again, as the older script does, gives the same board |
| Pcb.CloseAt | kicad/scripts/annotate_pcb.py:145 | the lazy `.*?[)]` ends at the first `)` with no line break before it, or finds none |
| Pcb.NetAt | kicad/scripts/annotate_pcb.py:145 | a match at the start of the text begins with `Net-(old-` and ends at the first `)` after that, with no line break before it; text without that beginning has no match |
| Pcb.FindNets | kicad/scripts/annotate_pcb.py:145-148 | each net found starts with `Net-(old-`, ends at its first `)` and holds no line break |
| Pcb.Dedup | kicad/scripts/annotate_pcb.py:148 | `list(set(...))` keeps each found net once and nothing else |
| Pcb.ReplaceNetsLoop | kicad/scripts/annotate_pcb.py:153-161 | the inner loop computes `ReplaceNets`: each net replaced by its marked rewrite in turn |
| Pcb.RemapNets | kicad/scripts/annotate_pcb.py:135-168 | the net loop computes exactly `RemapNetsSpec`: file written (none in dry-run) and counter |
| Pcb.RemapPcb | kicad/scripts/annotate_pcb.py:111-173 | `remap_pcb`: the board's designators, the component counter, the written file and the net counter |
| Pcb.NetStepsCount | kicad/scripts/annotate_pcb.py:137-161 | the net counter counts processed records, not nets; dry-run leaves the buffer as read |
| Pcb.RemapNetsOutcome | kicad/scripts/annotate_pcb.py:137-173 | dry-run writes nothing; the written file has no marker; the net counter equals the component counter |
| Pcb.OtherNetsUnmatched | kicad/scripts/annotate_pcb.py:145 | a net of another designator, including `R10` when renaming `R1`, does not start with `Net-(old-` |
| PcbDocument.MapChunksCompose | kicad/scripts/annotate_pcb.py:137-161 | renaming nets twice is renaming once by the composed map |
| PcbDocument.FindNetsOnBoard | kicad/scripts/annotate_pcb.py:145-148 | on a well-formed board file `re.findall` lists exactly the nets of the unmarked old designator, in order |
| PcbDocument.NetReplacementText | kicad/scripts/annotate_pcb.py:153-154 | the rewrite of a net of the unmarked old designator is the same net under the marked new name |
| PcbDocument.ReplaceNetsOnBoard | kicad/scripts/annotate_pcb.py:153-161 | replacing the found nets marks-and-renames exactly those nets in the board |
| PcbDocument.BoardStep | kicad/scripts/annotate_pcb.py:137-161 | one record's net pass on a well-formed board maps its nets to the marked new name and counts it if processed |
| PcbDocument.PassOnBoard | kicad/scripts/annotate_pcb.py:137-161 | the whole net loop is the board mapped by the accumulated renames, with the processed count |
| PcbDocument.NetRefAfterLookup | kicad/scripts/annotate_pcb.py:137-161 | with distinct old names each net ends under its designator's new name, looked up among the original names |
| PcbDocument.BoardClean | kicad/scripts/annotate_pcb.py:166-167 | the final strip removes exactly the markers |
| PcbDocument.RemapNetsRenames | kicad/scripts/annotate_pcb.py:137-168 | the net half writes the board with every net renamed at once: swaps and chains right, other designators' nets untouched |
| PcbDocument.UnchangedNetsKept | kicad/back_annotate.py:126-147 | processing records whose designator stays gives back the file exactly |
| Refdes.TrimLeft | kicad/bom_export.py:85 | removes exactly the leading whitespace, where whitespace is what Python 3 `str.isspace()` accepts (`\x1c`-`\x1f` and the Unicode spaces included) |
| Refdes.TrimRight | kicad/bom_export.py:85 | removes exactly the trailing whitespace, in the same Python 3 sense |
| Refdes.StripSpace | kicad/bom_export.py:85 | the result is a slice of the input with only Python 3 whitespace cut off both ends, and starts and ends with non-whitespace |
| Refdes.TrailingDigits | kicad/bom_export.py:90 | `[0-9]+$` matches the longest digit suffix; it is non-empty iff the designator ends in a digit |
| Refdes.Number | kicad/bom_export.py:90 | `re.findall(...)[0]` is the trailing number, or IndexError when there is none |
| Refdes.ConvertAllOk | kicad/bom_export.py:89-97 | each loop succeeds iff every designator ends in a digit, and then maps every designator |
| Refdes.Designators | kicad/bom_export.py:84-85 | one stripped designator per comma-separated part |
| Refdes.SortRefdesString | kicad/bom_export.py:80-99 | the two loops and the sort compute `SortRefdesSpec` |
| Refdes.PadAll | kicad/bom_export.py:89-92 | the first loop pads the trailing number of every designator to eight digits, or fails with IndexError at the first designator without one |
| Refdes.UnpadAll | kicad/bom_export.py:94-97 | the second loop writes every trailing number back as `str(int(number))`, or fails at the first designator without one |
| Refdes.ZFillDigits | kicad/bom_export.py:91 | `zfill(8)` prepends zeros up to width 8 and keeps the value |
| Refdes.PadRoundTrip | kicad/bom_export.py:90-96 | padding replaces the trailing number by its 8-digit form; unpadding that gives the canonical designator (leading zeros dropped) |
| Refdes.PaddedOrder | kicad/bom_export.py:91-94 | with a common prefix and at most 8 digits, the padded strings compare as the numbers do |
| Refdes.SortRefdesFails | kicad/bom_export.py:84-97 | IndexError iff some stripped designator lacks a trailing number; otherwise as many designators as comma-separated parts |
| Refdes.RefdesLeTotal | kicad/bom_export.py:94 | comparing designators by padded text is a total preorder |
| Refdes.SortedNumeric | kicad/bom_export.py:94 | in padded order, designators whose only digits are the trailing number, with the same prefix and at most 8 digits, are in numeric order |
| Refdes.PaddingEveryCopy | kicad/bom_export.py:89-94 | `R10X10` has both copies of `10` padded and so sorts before `R10X9`: outside plain designators the padded order is not numeric |
| Refdes.SortDesignatorsPlain | kicad/bom_export.py:89-97 | on designators whose only digits are the trailing number, the result is the canonical forms of the designators sorted by padded text |
| Refdes.SortRefdesPlain | kicad/bom_export.py:84-97 | on designators whose only digits are the trailing number, the result is a permutation of the designators, canonicalised, with same-prefix numbers of up to 8 digits in numeric order (R2 before R10) |
| Dicts.Find | kicad/bom_export.py:116 | the position of the first entry with the key, or none iff the key is absent |
| Dicts.Get | kicad/bom_export.py:175 | `d[k]` is defined iff the key is present, and is that entry's value |
| Dicts.Set | kicad/bom_export.py:128 | `d[k] = v`: k now maps to v, other keys unchanged, a new key is appended, distinct keys kept |
| Dicts.Remove | kicad/bom_export.py:109 | the dict without key k: exactly the other entries, and distinct keys stay distinct |
| Dicts.Pop | kicad/bom_export.py:109 | `pop(k)` returns the value and the rest, or KeyError iff the key is absent |
| Dicts.GetIn | kicad/bom_export.py:128 | with distinct keys, `d[k] == v` iff the entry (k, v) is present |
| Dicts.GetPermutation | kicad/bom_export.py:137 | dicts with the same entries in any order answer every lookup alike |
| Dicts.GetRemove | kicad/bom_export.py:109 | popping one key leaves every other lookup as it was |
| Bom.EntryLeOrder | kicad/bom_export.py:112 | the order on entries (by key) is a total order |
| Bom.BuildDescriptor | kicad/bom_export.py:111-115 | the descriptor loop with its final `[:-1]` computes the tab-join of the sorted `key\fvalue` fields |
| Bom.DecodeFields | kicad/bom_export.py:123-128 | the parameter loop computes `Decode`, IndexError at a parameter without `\f` |
| Bom.SetAllStops | kicad/bom_export.py:127-128 | a parameter without `\f` makes the whole decode raise IndexError |
| Bom.DecodeEntry | kicad/bom_export.py:124-128 | a field without `\f` decodes back to its entry |
| Bom.SetAllFields | kicad/bom_export.py:123-128 | decoding the fields of a clean dict rebuilds it exactly |
| Bom.DescriptorRoundTrip | kicad/bom_export.py:111-128 | a non-empty dict without `\t`/`\f` decodes from its descriptor to its entries in key order |
| Bom.EmptyDescriptorFails | kicad/bom_export.py:111-128 | a component with only `refdes` gives the empty descriptor, whose decode raises IndexError |
| Bom.SameDescriptor | kicad/bom_export.py:111-115 | two clean dicts have the same descriptor iff they have the same entries |
| Bom.DescriptorEmpty | kicad/bom_export.py:111-115 | the descriptor is empty iff the dict is |
| Bom.LineOf | kicad/bom_export.py:116-117 | finds the line of a descriptor, or none iff no line has it |
| Bom.Collect | kicad/bom_export.py:107-119 | the first loop fails only with KeyError |
| Bom.CollectGroups | kicad/bom_export.py:107-119 | the first loop succeeds iff every component has `refdes`, and then files the pairs (descriptor, designator) in order |
| Bom.GroupGroups | kicad/bom_export.py:116-119 | filing gives one line per distinct descriptor, each with exactly its designators in input order, non-empty, totalling the number filed |
| Bom.CollectLines | kicad/bom_export.py:107-119 | for designated components, `line_dict` groups them by descriptor and the designator total is the component count |
| Bom.RefsWithHas | kicad/bom_export.py:119 | every component's designator is on its descriptor's line |
| Bom.MakeItemsOk | kicad/bom_export.py:122-134 | the item loop succeeds iff every line's item does, gives item k for line k, and fails only with IndexError |
| Bom.ItemFails | kicad/bom_export.py:123-132 | an item fails only with IndexError |
| Bom.ItemQuantity | kicad/bom_export.py:131-133 | an item's quantity is the size of its group |
| Bom.ItemSummary | kicad/bom_export.py:130-133 | an item's `refdes` is `sort_refdes_string` of its designators joined by commas; its `quantity` is `str` of their number |
| Bom.ItemsQuantities | kicad/bom_export.py:130-134 | the quantities of the items sum to the designators on the lines |
| Bom.QuantitiesPermutation | kicad/bom_export.py:136-137 | reordering the items keeps the total quantity |
| Bom.ItemLeOrder | kicad/bom_export.py:136-137 | ordering items by `refdes` is a total preorder |
| Bom.SortItems | kicad/bom_export.py:136-137 | TypeError iff two items share a `refdes` but differ as dicts; otherwise a permutation of the items |
| Bom.SortItemsOrdered | kicad/bom_export.py:136-137 | the items come out ascending by `refdes`, ties in input order |
| Bom.GroupItemsTotals | kicad/bom_export.py:102-138 | KeyError iff some component lacks `refdes`; otherwise the items are sorted by `refdes` and the quantities sum to the number of components |
| Bom.ItemFields | kicad/bom_export.py:123-128 | an item has every field of the dict its descriptor came from, except `refdes` and `quantity` |
| Bom.ComponentLine | kicad/bom_export.py:107-133 | a component's line lists exactly the designators of the components with its descriptor, including its own, and the item carries the component's other fields |
| Bom.SharedLine | kicad/bom_export.py:111-119 | two clean components share a line item iff their fields other than `refdes` are equal |
| Bom.FirstUndesignated | kicad/bom_export.py:108-109 | the components before it all have `refdes`, and it is the first one without |
| Bom.MapResultsStops | kicad/bom_export.py:122-134 | the item loop stops at the first line that fails, with that failure |
| Bom.FileComponents | kicad/bom_export.py:107-119 | the first loop computes `Collect` and pops `refdes` in place from every component up to the first without one |
| Bom.FileRef | kicad/bom_export.py:116-119 | filing one designator under its descriptor is `AddRef`: a new descriptor gets a new entry at the end, a known one has the designator appended to its list |
| Bom.GroupItems | kicad/bom_export.py:102-138 | `group_items` computes `GroupItemsSpec` and leaves the input dicts without their `refdes` up to the first missing one |
| BomReport.Last4 | kicad/bom_export.py:147 | `p[-4:]`: the last four characters, or all of a shorter name |
| BomReport.TxtPathSuffix | kicad/bom_export.py:147-148 | the output name ends in `.txt` in some case, begins with the name given, and equals it iff that already ends so |
| BomReport.TxtPathIdempotent | kicad/bom_export.py:147-148 | fixing up an already fixed-up name changes nothing |
| BomReport.NumberItems | kicad/bom_export.py:154-155 | item k gets `bom_index` = `str(k + 1)`, nothing else changes |
| BomReport.NumberedItems | kicad/bom_export.py:154-155 | after numbering item k reads k+1, no two items share a number, and other fields are as they were |
| BomReport.CellFirst | kicad/bom_export.py:172-176 | a cell is `""` when the line has none of the column's keys, else the value of the first key it has |
| BomReport.CellOf | kicad/bom_export.py:172-176 | the inner loop with `break` computes the cell |
| BomReport.Header | kicad/bom_export.py:157-167 | the eight headings in column order |
| BomReport.Row | kicad/bom_export.py:170-177 | one cell per column, eight in all |
| BomReport.RowCells | kicad/bom_export.py:157-177 | each column reads its one key, except Description, which falls back to `value` |
| BomReport.ReportLines | kicad/bom_export.py:166-178 | one header line plus one line per item |
| BomReport.RenderBom | kicad/bom_export.py:166-184 | the report loops produce exactly the text written |
| BomReport.HeaderParses | kicad/bom_export.py:167 | the header line splits at tabs back into the headings |
| BomReport.RowParses | kicad/bom_export.py:178 | an item's line has no line break and splits at tabs back into its cells |
| BomReport.ReportParses | kicad/bom_export.py:166-184 | the written text splits back into the header and one line per item, each into its cells |

## Left out

- pcbnew calls (`GetBoard`, `GetModules`, `SetReference`, `SetSelected`, `SetModified`, `SaveBoard`, `LoadBoard`, `Refresh`) belong to KiCad's own library. The board is a sequence of modules, a module handle is its index, and setting a designator is an array update. The text of the saved board file is a parameter.
- File reads and writes are not modelled. Files are strings in and out, the `.dump` file is a returned value, and `sanitize`, `make_parser` and `main`'s argument checks are left out.
- Messages on standard output and the `quiet` flag are left out; they change no state.
- `print_records` and the module-level driver of `back_annotate.py` are left out. The driver's module-level names (`schematic_file`, `dry_run`, `filename`) become parameters.
- Floats: coordinates are exact reals, so rounding error in the division and in `round` is not modelled. The `-inf` start value of the maximum is a negative sentinel.
- Reannotate.Round: its contract only bounds the result within one half of the argument; ties are rounded away from zero, as Python 2 does, in the definition only.
- `set()` iteration order is hash order in Python. The model lists the distinct nets in order of first occurrence. The order matters when one found net contains another: in `Net-(R1-Net-(R1-X) Net-(R1-X)`, renaming `R1` gives a different text depending on which net is replaced first. The document-level theorems rule that case out through `BoardOk`.
- Template.GroupIndex: a `\g<...>` number too large for a C `long` is read as its value. Python 2 reads it as a `long` instead; the template fails with `re.error` either way, but the model may report that failure when filling in rather than while parsing, which matters only when a later `\g<name>` would raise IndexError first.
- SchematicDocument.CompOk: the document-level theorems assume symbols without a backslash. A symbol with one is a `re.sub` template, and only the text-level `Schematic.Step` expands it.
- Designators are put into the two regexes unescaped. The document-level theorems assume designators made of letters, digits and `_`. The text-level functions match the designator literally.
- The XML accessors of `bom_export.py` (`get_components`, `get_footprint`, `get_value`, `get_refdes`, `get_fields`) are left out. Components are string dicts, and a missing XML text (`None`) is not modelled.
- `lower()` folds only ASCII capitals. No other character folds to `.`, `t` or `x`, so the `.txt` test is unaffected.
- Refdes.SortRefdesPlain: numeric order is stated only for designators whose only digits are the trailing number, and only for trailing numbers of at most 8 digits. Longer numbers compare as padded strings, which is what the code does. A designator with other digits is not covered because `str.replace` pads every copy of the number, not only the trailing one. `Refdes.PaddingEveryCopy` shows the code putting `R10X10` before `R10X9`.
- Bom.ComponentLine and Bom.SharedLine need components whose keys and values hold no `\t` or `\f`. With those characters the descriptor does not decode back, as in the source.
- Bom.GroupItems: the first loop of `group_items` is the separate method `Bom.FileComponents`, called at the start.
- `os.path.abspath`/`normpath` of the output path are left out; `BomReport.TxtPath` takes the path as given.
