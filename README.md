# Radio-button groups and the signature font patch of the form generator

The form generator fills a PDF form with pymupdf and then post-processes the
document. This project models the post-processing of that document's object
graph:

- the **radio-group pass** (`fix_radio_button_groups`);
- the helpers the pass uses:
  - the export-name sanitiser;
  - AcroForm promotion;
  - the reference-array codec;
  - the `/AP` on-state rewrite;
  - rectangle closeness;
  - the update matcher;
- the **signature font patch** (`configure_signature_font`);
- three small pure helpers:
  - `Translator.text`;
  - `part_label_from_field`;
  - `question_number_from_field`.

## How the document is modelled

A document (`PdfDoc.Document`) is a table of indirect objects plus a counter for fresh object numbers.

- Each object is a dictionary from key to the `(type, text)` pair that `xref_get_key` reports.
- A missing key reads as `('null', 'null')`.
- Setting a key to `null` removes it.
- Turning a whole object into PDF source text, and back, is the library's job. It is given as two functions, `parse` and `source`.
- Where the program composes an object's text itself, the model stores the dictionary that text denotes. This covers the group parent and the signature AcroForm.

Every operation has two forms:

- a function over the object table, which states what happens;
- a method on the `Document` object, which performs the same steps in the source's order.

The method's `ensures` ties it to the function. Lemmas state the properties of the function.

## How the pass works

1. Update records are normalised and bucketed by field name. Each bucket is sorted by `order`.
2. The AcroForm is promoted to an indirect object if it is inline. A bad `/AcroForm` stops the pass.
3. Every radio-button widget, in page order, is matched to a record. The matcher tries:
   - its own bucket, geometry first;
   - the head of the first other non-empty bucket;
   - the fallback records;
   - a synthesised record.
4. Each group, in first-seen order:
   - is sorted by `(order, y0, x0, xref)`;
   - gets a fresh parent field;
   - has its members' references and old parents replaced in `/Fields` by the parent, at the first removed position;
   - has each child renamed to its export state and re-parented.
5. `/Fields` is written back once at the end.

## Behaviour that may be unexpected

The model follows the code in each case:

- **Running the pass twice.** A second run is not a no-op. Every run allocates a new parent per group, so a second run over a grouped document makes new parents.
- **Order of groups.** Groups are built in the order in which they were first filled while matching. They are not ordered by their first member's sort key.
- **Two widgets sharing one `/AP` stream.** When the `/AP` entries of two members name the same object, each member's rename rewrites that one object in turn. The second rename works on the text the first left, so the on-state ends under the later member's export name, and the earlier widget's on-state is renamed away too. The model's contracts on the `/AP` targets speak only of targets that a single member names.
- **Cross-bucket matching.** The cross-bucket step pops from the first other non-empty bucket in insertion order. When no record there is on the widget's page with a close rectangle, that pop returns the bucket's head, whatever its page or rectangle. It does not go on to look in later buckets.

## Model

| member | source | states |
|---|---|---|
| ExportNames.ExportNamePool.Sanitize | python/generate_form.py:184-194 | returns `ExportName(value, used)` and adds exactly that name to the set of names used |
| ExportNames.ExportNameIsSmallestFree | python/generate_form.py:188-193 | the name returned was not in use; it is the sanitised base when that is free, else `base_k` for the least k >= 1 not in use |
| ExportNames.FirstFreeIsLeast | python/generate_form.py:190-192 | the de-duplication loop stops at the first untaken candidate, and every earlier candidate was taken |
| ExportNames.ExportNameWellFormed | python/generate_form.py:186-193 | every export name is non-empty, made of ASCII letters, digits and `_`, and neither starts nor ends with `_` |
| ExportNames.SanitizedBaseWellFormed | python/generate_form.py:186-187 | the base before de-duplication is well formed in that sense |
| ExportNames.NoAsciiLabelIsOption | python/generate_form.py:186-187 | a label with no ASCII letter or digit gets the base `Option` |
| ExportNames.SameBaseTwice | python/generate_form.py:188-193 | two labels with the same base in one group get `base` and then `base_1` |
| ExportNames.YesBang | python/generate_form.py:186-187 | `"Yes!"` sanitises to the base `Yes` |
| ExportNames.YesQuery | python/generate_form.py:186-187 | `"Yes?"` sanitises to the base `Yes`, so the two collide as in a group with both |
| ExportNames.Collapse | python/generate_form.py:186 | the `re.sub` result holds only ASCII letters, digits and `_` |
| Text.ParseNatToString | python/generate_form.py:191 | the decimal text of a number reads back as that number |
| RefArray.ParsedAreRefs | python/generate_form.py:435-436 | every string `findall` returns is a reference `digits space digits space R` |
| RefArray.FormatThenParse | python/generate_form.py:435-440 | parsing the formatted array of a list of references gives that list back |
| RefArray.ParseIsStable | python/generate_form.py:435-440 | parse, format and parse again gives what the first parse gave |
| RefArray.FormatEmpty | python/generate_form.py:439-440 | the empty list formats as `[]`, which parses to the empty list |
| RefArray.RefTextRoundTrip | python/generate_form.py:431 | `f"{x} 0 R"` is a reference and `int(split()[0])` reads back x |
| RefArray.RefTextInjective | python/generate_form.py:586 | distinct widgets give distinct reference strings |
| Appearance.FindBlockIsLeftmost | python/generate_form.py:444 | the `/N << ... >>` block found is the leftmost one, and when none is found there is none |
| Appearance.CloseFromIsFirst | python/generate_form.py:444 | the lazy body ends at the first `>>` after the opening |
| Appearance.Scan | python/generate_form.py:458 | the `re.sub` scan of the body splits it into pieces whose text is exactly the body |
| Appearance.FirstOnIsFirst | python/generate_form.py:453-456 | the entry renamed is the first whose name is not `Off`, and with none picked there is none |
| Appearance.SubFirstOn | python/generate_form.py:450-458 | the substitution renames exactly the first non-`Off` entry, keeping its reference, and copies everything else |
| Appearance.SubNoOn | python/generate_form.py:453-454 | with no non-`Off` entry the body is copied and nothing is reported renamed |
| Appearance.ReplaceNoBlock | python/generate_form.py:444-446 | with no `/N` block the text comes back unchanged with `False` |
| Appearance.ReplaceNoOnEntry | python/generate_form.py:459-460 | with a block whose entries are all `Off` the text comes back unchanged with `False` |
| Appearance.ReplaceFirstOnEntry | python/generate_form.py:447-462 | otherwise the input is `before + entry + after` and the result is `before + "/new ref" + after` with `True` |
| FormObjects.EnsureAcroFormSpec | python/generate_form.py:420-432 | the error is raised exactly for an AcroForm that is neither inline nor a readable reference, and then nothing changes; on success the catalog's `/AcroForm` is a reference to the number answered; an inline AcroForm becomes fresh object `next` holding what it held, and only the catalog changes besides |
| FormObjects.EnsureAcroFormXref | python/generate_form.py:420-432 | the method's result, new table and counter are those of `EnsureAcroForm` |
| FormObjects.RenameOnState | python/generate_form.py:465-478 | the object numbers are unchanged, and no object other than the widget and its `/AP` target changes |
| FormObjects.RenameOnStateSpec | python/generate_form.py:465-478 | an inline `/AP` whose `/N` has an entry not named `Off` gets the rewritten text; otherwise an indirect `/AP` target whose text has such an entry is replaced by the parse of the rewritten text; when neither rewrite renames anything the table is unchanged |
| FormObjects.RenameWidgetOnState | python/generate_form.py:465-478 | the new table is `RenameOnState` of the old one, and the counter is unchanged |
| Geometry.NearIsBand | python/generate_form.py:484-487 | `abs(a - b) <= 0.05` holds exactly when a lies in the band of half-width 0.05 around b |
| Geometry.RectsCloseReflexiveSymmetric | python/generate_form.py:481-488 | closeness is reflexive and symmetric |
| Geometry.RectsCloseNotTransitive | python/generate_form.py:481-488 | closeness is not transitive (rectangles 0.05 apart twice) |
| Updates.FirstMatchIsFirst | python/generate_form.py:496-502 | the match found is the first record on the same page (or with none) with a close rectangle; with none found there is none |
| Updates.PopIndexSpec | python/generate_form.py:491-503 | nothing is popped exactly when the list is empty; else the first matching record is popped, or the head when none matches |
| Updates.PopMatching | python/generate_form.py:491-503 | returns the record at `PopIndex` and the list without it; `None` exactly for an empty list |
| Updates.Without | python/generate_form.py:502-503 | the list after a pop is one shorter, keeps the other records in their order, and with the popped record it is the list before, as a multiset |
| Updates.BucketRecords | python/generate_form.py:512-528 | the normalised records are bucketed by field name in first-seen order, and the unnamed ones go to the fallback list |
| Updates.SortBuckets | python/generate_form.py:530-531 | every bucket is replaced by its stable sort by `order` |
| Updates.BucketUpdates | python/generate_form.py:510-532 | the pool is well formed; its names are the distinct field names in first-seen order; each bucket and the fallback are the sorted records of that name; together they hold exactly the normalised records |
| Updates.NamedCount | python/generate_form.py:524-528 | each bucket holds every record of its name as often as the input does, and no other |
| Updates.FieldNamesDistinct | python/generate_form.py:510 | the bucket names are pairwise distinct |
| Updates.PoolHoldsAll | python/generate_form.py:510-532 | the buckets and the fallback list together hold exactly the records |
| Sorting.KeyOrderTotal | python/generate_form.py:577-584 | the tuple order on `(order, y0, x0, xref)` is total and transitive |
| Sorting.SortBySorted | python/generate_form.py:577-584 | the sort's result is ordered by the key |
| Sorting.SortBy | python/generate_form.py:577-584 | the sort's result is a permutation of its input |
| Sorting.SortByStable | python/generate_form.py:531 | the sort is stable: items of one key keep their relative order |
| Matching.CrossBucket | python/generate_form.py:555-562 | the index chosen is the first one, in insertion order, whose bucket is another field's and non-empty; with none chosen, every other field's bucket is empty |
| Matching.TakeFromSpec | python/generate_form.py:551 | a pop from a bucket keeps the pool well formed and removes exactly the record handed out |
| Matching.PickSpec | python/generate_form.py:551-565 | with a record handed out the pool loses exactly it; otherwise the pool was empty and is unchanged |
| Matching.MatchWidgetSpec | python/generate_form.py:549-570 | the widget's own non-empty bucket serves it with the record `_pop_matching_update` picks there; otherwise the first other non-empty bucket in insertion order serves it, with the record picked there and that bucket's name as the group; otherwise a non-empty fallback list serves it with the record picked there, the group being the widget's name, else the record's field name, else `field_<xref>`; a record is synthesised exactly when no record is left; the pool loses exactly the record handed out; the group name is never empty |
| Matching.Resolve | python/generate_form.py:570 | the resolved group name is never empty |
| Matching.AddMemberSpec | python/generate_form.py:571 | appending to a group keeps the groups well formed and adds exactly that member |
| Matching.AssignAllSpec | python/generate_form.py:545-571 | every radio-button widget, and no other, is placed in exactly one group in page order; group names are non-empty; each record is handed to at most one widget |
| Matching.GroupsIffRadios | python/generate_form.py:545-571 | some group is built exactly when some widget is a radio button |
| Matching.AssignedFromWidgets | python/generate_form.py:545-571 | every group member is one of the widgets enumerated |
| Matching.AssignUnshared | python/generate_form.py:545-571 | when the widgets have distinct object numbers, no two group members, in the same group or in different ones, share an object |
| Matching.CrossSearch | python/generate_form.py:554-562 | the loop stops at the bucket `CrossBucket` chooses, returns that bucket's name and the record and remaining bucket `TakeFrom` gives, and finds nothing when `CrossBucket` chooses nothing |
| Matching.MatchOne | python/generate_form.py:549-570 | one iteration gives the record, group name and pool `MatchWidget` specifies |
| Matching.AssignWidgets | python/generate_form.py:545-571 | the loop gives the groups and the pool left that `AssignAll` specifies |
| RadioGroups.ChildRefsAreRefs | python/generate_form.py:586 | every child reference is a reference and reads back as its widget's number |
| RadioGroups.RemoveRefsSpec | python/generate_form.py:587-591 | the set removed holds exactly the children's references and their indirect `/Parent` references |
| RadioGroups.ParentRefsSpec | python/generate_form.py:588-591 | the old parents collected are exactly the indirect `/Parent` values of the members |
| RadioGroups.KeptMembers | python/generate_form.py:598-599 | the filtered `/Fields` holds exactly the entries not removed |
| RadioGroups.FirstInIsFirst | python/generate_form.py:596-597 | the insertion point is the first removed entry, with none before it |
| RadioGroups.InsertAtSpec | python/generate_form.py:600 | `list.insert` puts the item at that index and keeps the other items in order |
| RadioGroups.SpliceSpec | python/generate_form.py:596-600 | no removed reference survives; the parent sits at the first removed position (or is appended when none was present); the entries before it are as they were; without the parent the result is the filtered list |
| RadioGroups.ParentDictSpec | python/generate_form.py:602-618 | the parent is `/FT /Btn`, `/T` the group name, `/Ff` the first widget's flags, `/Kids` the children in sorted order, `/V` and `/DV` `/Off`, and `/DA` exactly when the first widget has a non-empty string `/DA` |
| RadioGroups.SetChildKeysSpec | python/generate_form.py:625-630 | a child gets `/Parent` the parent, `/AS /Off`, and loses `/T`, `/V`, `/DV` and `/Kids`; no other key of it changes |
| RadioGroups.RewriteAllSpec | python/generate_form.py:621-630 | every member ends re-parented with its `/AP` as its rename leaves it and its other keys kept; the object an indirect `/AP` names, when no other member's `/AP` names it, holds what that member's rename writes there; every object no member touches is unchanged |
| RadioGroups.FreshParentNotRemoved | python/generate_form.py:593-600 | the fresh parent's reference is never among those removed from `/Fields` |
| RadioGroups.BuildParent | python/generate_form.py:593-618 | building a group writes its parent at the fresh number |
| RadioGroups.BuildChildren | python/generate_form.py:621-630 | building a group re-parents every member with its `/AP` as its rename leaves it, and leaves the object a member's indirect `/AP` names, when no other member's `/AP` names it, holding what that member's rename writes |
| RadioGroups.BuildFrame | python/generate_form.py:574-630 | building a group leaves every object no member touches unchanged |
| RadioGroups.BuildFieldsDropped | python/generate_form.py:596-600 | after building a group, no member reference and no old parent reference is left in `/Fields` |
| RadioGroups.BuildOneSorts | python/generate_form.py:577-584 | a group is built from its members sorted by the key, a permutation of them |
| RadioGroups.BuildFromCount | python/generate_form.py:574-619 | building the groups allocates one number per group and sets the modified flag exactly when a group was built |
| RadioGroups.BuildFromObjects | python/generate_form.py:574-630 | after building, the objects are the old ones plus the fresh numbers, and the flag is set exactly when a number was allocated |
| AllGroups.BuildOneDone | python/generate_form.py:577-630 | building one group puts its parent dictionary over the members in key order at the fresh number, makes every member a kid of it as `ChildDone` describes, and leaves the parent's reference and no member's in the `/Fields` entries |
| AllGroups.BuildOneKeepsDone | python/generate_form.py:573-630 | building a later group, none of whose members is a member of an earlier group or has an `/AP` naming one, keeps every fact above about the earlier group |
| AllGroups.BuildFromGroups | python/generate_form.py:573-630 | building the remaining groups, one after another, leaves every group built as above, the j-th with its parent at the j-th fresh number |
| AllGroups.BuildAllGroups | python/generate_form.py:573-630 | building all the groups from the table and `/Fields` entries the pass reads leaves the entries all references and every group built as above |
| AllGroups.ApartFromWidgets | python/generate_form.py:545-571 | with distinct, linked widgets none of which is another's `/AP` target, every group formed is non-empty with distinct, linked members, and no member of one group is a member of another or is named by its `/AP` |
| AllGroups.GroupPassGroups | python/generate_form.py:539-633 | after the pass, for the j-th group: the object at the j-th fresh number is its parent dictionary over the members in key order; every member is a kid of it as `ChildDone` describes; and the AcroForm's `/Fields` lists the parent and none of the members |
| AllGroups.BuildOneTarget | python/generate_form.py:621-624 | building one group leaves the object a member's indirect `/AP` names, when no other member names it and it is still as it was, holding what that member's rename writes |
| AllGroups.BuildFromKeeps | python/generate_form.py:573-630 | building the remaining groups leaves alone every object that none of their members is and none of their `/AP` entries names |
| AllGroups.BuildFromTarget | python/generate_form.py:573-630 | building the remaining groups leaves the object a member's indirect `/AP` names, when no member of any group shares it, holding what that member's own rename writes; earlier and later groups do not touch it |
| AllGroups.GroupPassTargets | python/generate_form.py:539-633 | after the pass, the object a member's indirect `/AP` names, when it is not the AcroForm object and no other member of any group names it, holds what that member's rename writes there |
| AllGroups.GroupPassFrame | python/generate_form.py:539-633 | after the pass, every object of the table other than the AcroForm object that no member is and no member's `/AP` names is unchanged |
| AllGroups.FixRadioGroupsFrame | python/generate_form.py:506-633 | after the whole pass, every object of the table other than the catalog and the AcroForm object that no member is and no member's `/AP` names is unchanged |
| RadioGroups.GroupPassSpec | python/generate_form.py:539-633 | one new object per group and no other; no radio button means no change; otherwise `/Fields` is written back as an array |
| RadioGroups.FixRadioGroupsSpec | python/generate_form.py:506-633 | no object is removed and the counter never drops; no updates or an unusable AcroForm mean no change; with no radio button only the AcroForm promotion happens |
| RadioPass.SetChildKeysOn | python/generate_form.py:625-630 | the six key writes give the child dictionary `ChildDict` |
| RadioPass.RewriteChildren | python/generate_form.py:621-630 | the loop over the sorted members gives `RewriteAll` |
| RadioPass.GroupRemoveRefs | python/generate_form.py:587-591 | the loop gives the set `RemoveRefs` |
| RadioPass.BuildGroup | python/generate_form.py:577-630 | building one group on the document gives the table, counter and `/Fields` entries `BuildOne` specifies |
| RadioPass.BuildGroups | python/generate_form.py:573-630 | the loop over the groups gives what `BuildFrom` specifies |
| RadioPass.GroupPassOn | python/generate_form.py:539-633 | the table and counter after the pass are `GroupPass` of the old ones |
| RadioPass.FixRadioButtonGroups | python/generate_form.py:506-633 | the table and counter after the whole pass are `FixRadioGroups` of the old ones |
| PdfDoc.WithKey | python/generate_form.py:625 | `xref_set_key` sets one key of one object (`null` removes it) and changes nothing else |
| PdfDoc.Document.NewXref | python/generate_form.py:593 | `get_new_xref` answers a number no object has, adds an empty object there and advances the counter |
| PdfDoc.Document.UpdateObject | python/generate_form.py:618 | `update_object` replaces one object by the parse of the text |
| SignatureFont.FirstNamedIsFirst | python/generate_form.py:1322-1325 | the widget chosen is the first on the first page named `auth_whiner_signature`, and with none chosen there is none |
| SignatureFont.FindSignatureWidget | python/generate_form.py:1320-1328 | the loop finds exactly that first widget, or nothing when there is none |
| SignatureFont.FieldsMatchSpec | python/generate_form.py:1342-1344 | the `/Fields[(.*?)]` match found is the leftmost, its group closes at the first `]`, and with none found there is none |
| SignatureFont.FontAcroFormFields | python/generate_form.py:1340-1351 | the new AcroForm's `/Fields` is an array that reads back as exactly the references, in order, of the inline AcroForm's `/Fields[...]` text |
| SignatureFont.AddFontResourcesSpec | python/generate_form.py:1333-1356 | an inline AcroForm with `/Fields[...]` becomes fresh object `next` with the font resources, and the catalog points to it; any other AcroForm leaves everything as it was; no other object changes |
| SignatureFont.AddFontResourcesOn | python/generate_form.py:1333-1356 | the method gives the table and counter `AddFontResources` specifies |
| SignatureFont.ConfigureSignatureSpec | python/generate_form.py:1319-1368 | without a signature widget nothing changes; otherwise its `/DA` names the font at the size, its `/AP` is gone, its other keys and every other object are as step 1 left them |
| SignatureFont.ConfigureSignatureFont | python/generate_form.py:1300-1368 | the method gives the table and counter `ConfigureSignature` specifies |
| Labels.TranslatorText | python/generate_form.py:267-270 | an unknown key is an error with the message `Translation key '<key>' is not defined.`, and only an unknown key is |
| Labels.TranslatorTextFallback | python/generate_form.py:271-274 | a non-empty translation is returned; otherwise the answer is the English text (empty when missing) |
| Labels.PartLabel | python/generate_form.py:276-284 | the label is `Part` or starts with `Part ` |
| Labels.PartLabelPrefixes | python/generate_form.py:277-279 | names starting `injury` are Part III and names starting `reason_filing` are Part IV |
| Labels.PartNumberOf | python/generate_form.py:280-282 | `part<n>` followed by a non-digit reads back as n |
| Labels.PartLabelNumbered | python/generate_form.py:280-283 | `part<n>...` is labelled `Part` followed by n's numeral (its decimal text beyond VI) |
| Labels.PartLabelPlain | python/generate_form.py:276-284 | a name with neither prefix and no `part<digits>` start is labelled `Part` |
| Labels.QuestionFromIsFirst | python/generate_form.py:288 | the `question\d` occurrence found is the leftmost, and with none found there is none |
| Labels.QuestionNumberSpec | python/generate_form.py:287-289 | the result is empty exactly when there is no `question<digit>`; otherwise it is the maximal digit run after the leftmost one |
| Labels.QuestionNumber | python/generate_form.py:287-289 | the result is all digits |
| Labels.QuestionNumberOf | python/generate_form.py:287-289 | `question<n>` followed by a non-digit gives n's decimal text |

## Left out

- pymupdf itself is left out. The object table, the fresh-number counter and key-level reads and writes are modelled; converting whole objects to and from PDF text is given as two functions.
- Widget enumeration (`doc` pages, `page.widgets()`) is a parameter: a sequence of widgets in page order, each with its number, page, type, name, rectangle and flags.
- Floating point is not modelled. Rectangles are exact reals, and `round(·, 2)` in the group sort key is not modelled.
- `float()` conversion of a stored rectangle is not modelled. Records arrive with their rectangle as reals or absent.
- Record values are modelled with fixed types: `order` an optional int, `rect` optional reals, `field_name` and `export` strings. A record value of another Python type (an `order` that is a string, say) is not modelled. A non-`dict` element is modelled, and it is skipped as in the code.
- RadioGroups.ParentDict: the parent is stored as the dictionary its text denotes. The model does not model that `/T (name)` and `/DA (...)` are written without escaping, so a name with an unbalanced parenthesis would parse differently in the library.
- RadioGroups.FixRadioGroups: an AcroForm reference whose text `int()` cannot read raises `ValueError` in the code, which is not caught by the `RuntimeError` handler. The model stops the pass there with the promotion's result, since the library never reports such a reference.
- RadioGroups.FixRadioGroups: an AcroForm reference to a number with no object raises inside the library. The model stops the pass there with nothing more changed.
- FormObjects.RenameOnState: an indirect `/AP` that points to no object is left alone. In the library that read would raise.
- SignatureFont.ConfigureSignature: the font size is a natural number and is written in decimal, as the caller passes the integer 16. Formatting a fractional size (`12.5`) is not modelled.
- SignatureFont.ConfigureSignature: the `except Exception` path (printing the error and the traceback) is not modelled, because the modelled steps raise nothing.
- SignatureFont.FontResources: the new AcroForm keeps only `/Fields` and `/DR`. The other inline keys are dropped, as the code does. The `/DR` value is kept as the text the code composes.
- `\d` and `\s` are read as ASCII digits and Python's whitespace set. Unicode digits are not modelled.
- Printing, logging, the translation catalog (`TranslationCatalog`), and the rest of the generator (page layout, text flow, field creation) are not part of this model.
- AllGroups.GroupPassGroups is stated for widgets with distinct object numbers, whose `/AP` targets and indirect `/Parent` objects exist, none of which is the AcroForm object, and none of which is named by another widget's `/AP`. Documents outside these conditions (two widgets sharing an object, a widget whose `/AP` stream is another widget) are not covered by it.
- AllGroups.GroupPassTargets, AllGroups.GroupPassFrame and AllGroups.FixRadioGroupsFrame are stated under the same conditions as AllGroups.GroupPassGroups. AllGroups.FixRadioGroupsFrame also needs that no widget is the catalog or the object the catalog's `/AcroForm` names.
- RadioGroups.RewriteAllSpec, RadioGroups.BuildChildren and AllGroups.GroupPassTargets say nothing about an `/AP` object that two members name. The repeated rename of such an object is described under "Behaviour that may be unexpected" but is not stated as a contract.
- FormObjects.RenameKeepsOtherKeys is stated for a widget whose `/AP` does not point to the widget itself. That self-reference is a malformed document.
