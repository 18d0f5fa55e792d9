# Poultry disease classifier — a Dafny model of its core

The web application lets a farmer upload photographs of poultry, shows a
simulated diagnosis for each one, and offers a searchable reference of five
poultry diseases. This project models three parts of it and proves what they
promise.

- **The upload workflow** (`components/ImageClassifier.tsx`), modelled in
  `image_classifier.dfy` as the class `ImageClassifier.Classifier`. It holds
  an ordered list of uploaded-image records and a drag-highlight flag.
  - `HandleFiles` appends one pending record per image file, in input order.
    Any file whose media type does not start with `image/` is ignored.
  - `CompleteClassification` is the deferred task. It runs once for each
    scheduled id. It gives every record with that id a result drawn from the
    catalog and clears its processing flag. An id whose record was removed
    changes nothing.
  - `RemoveImage` revokes the preview of the first record with the id and
    removes every record with that id.
  - `HandleDrag` and `HandleDrop` drive the highlight.
  - `DisplayName` is the 20-character truncation of a file name.
  - Ghost logs record the previews created and revoked and the
    classifications scheduled and fired. The class invariant `Valid` says:
    - records are consistent: processing exactly when they have no result;
    - ids and previews are distinct;
    - every live record's classification was scheduled, and a record is
      pending exactly while that classification has not fired;
    - no classification fires twice, so a result never changes once set;
    - while the component is mounted, every preview is either live or
      revoked exactly once, so none leaks.
  - Every method of the class is proved to preserve the invariant.
- **The disease reference** (`components/DiseaseDatabase.tsx`), modelled in
  `disease_database.dfy`.
  - The catalog filter is a case-insensitive substring search over name and
    description, combined with a severity selector that is either `all` or an
    exact severity name.
  - The severity icon and badge style are proved to agree with one
    severity-to-tone table.
  - Lemmas cover membership, order, case insensitivity, the `all` and
    unknown-severity cases, and two concrete searches over the catalog.
- **The catalog** (`data/diseases.ts`), modelled in `diseases.dfy`. The five
  entries are written out, with lemmas on their ids, severities and symptom
  counts.

`types.dfy` holds the records of `types/index.ts`. `array_ops.dfy` models
the JavaScript array methods the source uses (`filter`, `find`, `map`) with
their own lemmas.

The random draws, the clock, the id generator and the browser's object-URL
calls are parameters of the model. The timer is the caller, which decides
when a scheduled classification fires:
- a `Mint` carries the id and preview for one file;
- `draw` and `spread` are the two `Math.random()` values of a completion;
- `now` is the timestamp.

## Model

| member | source | states |
|---|---|---|
| `ImageClassifier.Classifier.constructor` | project-files/project/src/components/ImageClassifier.tsx:7-8 | The component starts with an empty list, no highlight and empty logs, and the invariant holds. |
| `ImageClassifier.Classifier.HandleFiles` | project-files/project/src/components/ImageClassifier.tsx:32-51 | A missing file list changes nothing. Otherwise the list grows by exactly the admitted records, and each admitted record's id is scheduled and its preview created, in input order. The new ids were never scheduled before. The invariant is kept. |
| `ImageClassifier.Classifier.AdmitOne` | project-files/project/src/components/ImageClassifier.tsx:37-48 | Admitting one image file with a fresh id and preview appends its pending record, creates its preview, schedules its classification and keeps the invariant. |
| `ImageClassifier.Classifier.AdmitFile` | project-files/project/src/components/ImageClassifier.tsx:35-50 | One iteration of the per-file loop extends the list and logs by exactly the record file k contributes (one pending record for an image, nothing otherwise), keeps the invariant and leaves the later mints fresh. |
| `ImageClassifier.StartsWith` | project-files/project/src/components/ImageClassifier.tsx:36 | `startsWith` holds exactly when the prefix is no longer than the string and agrees with it character by character. |
| `ImageClassifier.IsImage` | project-files/project/src/components/ImageClassifier.tsx:36 | A file is admitted exactly when its media type is at least six characters long and begins with `image/`, case-sensitively. |
| `ImageClassifier.Admitted` | project-files/project/src/components/ImageClassifier.tsx:35-47 | The records one call appends are no more than the files given, and each is pending, without a result, for an image file. |
| `ImageClassifier.PendingImage` | project-files/project/src/components/ImageClassifier.tsx:40-45 | A new record carries the generated id, the file and the preview, is processing and has no result. |
| `ImageClassifier.AdmittedAt` | project-files/project/src/components/ImageClassifier.tsx:35-47 | Exactly the image files are admitted, in input order: the j-th admitted record is the pending record of the j-th image file. |
| `ImageClassifier.AllImagesAdmitted` | project-files/project/src/components/ImageClassifier.tsx:35-47 | When every file is an image, N files give N pending records, one per file, in order. |
| `ImageClassifier.NonImagesIgnored` | project-files/project/src/components/ImageClassifier.tsx:36 | Files none of which has an `image/` media type add no record. |
| `ImageClassifier.AdmitPreservesInv` | project-files/project/src/components/ImageClassifier.tsx:37-48 | Appending a pending record with a fresh id and preview, and logging both, keeps the invariant. |
| `Catalog.DrawIndex` | project-files/project/src/components/ImageClassifier.tsx:13 | `floor(r * length)` for a uniform draw r in [0, 1) is always a valid catalog index. |
| `ImageClassifier.SimulatedResult` | project-files/project/src/components/ImageClassifier.tsx:13-20 | The simulated result names a catalog disease, has confidence in [0.7, 1.0) and carries the given timestamp. |
| `ImageClassifier.Completed` | project-files/project/src/components/ImageClassifier.tsx:24-26 | The per-record step keeps id, file and preview. A record with the id gets the result and stops processing, and any other record is returned as it is. |
| `ArrayOps.Map` | project-files/project/src/components/ImageClassifier.tsx:23 | `map` keeps the length and applies the function to each element in place. |
| `ImageClassifier.CompleteIn` | project-files/project/src/components/ImageClassifier.tsx:22-28 | The completion keeps the list's length and order and every record's id, file and preview. Records with the id get the result and stop processing. Every other record is unchanged. |
| `ImageClassifier.CompleteMissingIsNoop` | project-files/project/src/components/ImageClassifier.tsx:22-28 | A completion for an id that no record carries leaves the list unchanged. |
| `ImageClassifier.CompletePreservesInv` | project-files/project/src/components/ImageClassifier.tsx:22-28 | A completion keeps the invariant: completed records are consistent and nothing leaks. |
| `ImageClassifier.Classifier.CompleteClassification` | project-files/project/src/components/ImageClassifier.tsx:10-29 | The deferred task runs only for a scheduled id that has not fired yet, and then counts as fired. It replaces the list by its completion with the simulated result. A record that already had a result is left as it was. The other logs and the highlight are unchanged, and the invariant is kept. |
| `ImageClassifier.AdmitKeepsTasks` | project-files/project/src/components/ImageClassifier.tsx:37-48 | Admitting a record under a never-scheduled id, and scheduling its classification, keeps the task invariant. |
| `ImageClassifier.CompleteKeepsTasks` | project-files/project/src/components/ImageClassifier.tsx:12-28 | A scheduled classification that has not fired completes its records, counts as fired and keeps the task invariant: no classification fires twice. |
| `ImageClassifier.RemoveKeepsTasks` | project-files/project/src/components/ImageClassifier.tsx:70-77 | Removal keeps the task invariant. |
| `ImageClassifier.ResultsAreFinal` | project-files/project/src/components/ImageClassifier.tsx:22-28 | Under the task invariant, a classification that has not fired leaves every record that already has a result as it is, so a result never changes once set. |
| `ArrayOps.Find` | project-files/project/src/components/ImageClassifier.tsx:72 | `find` returns the first list element satisfying the predicate (one at an index before which no element satisfies it), and returns nothing exactly when no element satisfies it. |
| `ArrayOps.FindIndex` | project-files/project/src/components/ImageClassifier.tsx:72 | The index found is the first one whose element satisfies the predicate, or there is none when no element satisfies it. |
| `ImageClassifier.RemoveFrom` | project-files/project/src/components/ImageClassifier.tsx:76 | After removal no record carries the id. |
| `ImageClassifier.RevokedBy` | project-files/project/src/components/ImageClassifier.tsx:72-75 | A removal revokes at most one preview. |
| `ImageClassifier.RemoveKeepsOthers` | project-files/project/src/components/ImageClassifier.tsx:76 | A record survives removal if and only if it was in the list and has another id. Survivors keep their relative order. |
| `ImageClassifier.RemoveMissingIsNoop` | project-files/project/src/components/ImageClassifier.tsx:70-77 | Removing an absent id leaves the list unchanged and revokes nothing. |
| `ImageClassifier.RemoveRevokesFirstMatch` | project-files/project/src/components/ImageClassifier.tsx:72-74 | A removal revokes the preview of the first record with the id, and only that one. |
| `ImageClassifier.RemoveTwice` | project-files/project/src/components/ImageClassifier.tsx:70-77 | A second removal of the same id changes nothing and revokes nothing. |
| `ImageClassifier.CompleteAfterRemove` | project-files/project/src/components/ImageClassifier.tsx:22-28 | A completion that fires after its record was removed does not bring the record back. |
| `ImageClassifier.RemoveOne` | project-files/project/src/components/ImageClassifier.tsx:76 | With distinct ids, removing a present id shortens the list by exactly one. |
| `ImageClassifier.RemovePreservesInv` | project-files/project/src/components/ImageClassifier.tsx:70-77 | Removal and its revocation keep the invariant: the removed preview is revoked exactly once and no live preview is revoked. |
| `ImageClassifier.Classifier.RemoveImage` | project-files/project/src/components/ImageClassifier.tsx:70-78 | The new list is the old one without the id. The revoked log grows by the first match's preview, if there is one. The other state is unchanged and the invariant is kept. |
| `ImageClassifier.DragAfter` | project-files/project/src/components/ImageClassifier.tsx:56-60 | `dragenter` and `dragover` turn the highlight on and `dragleave` turns it off. Any other event leaves it as it was. |
| `ImageClassifier.ActiveAfter` | project-files/project/src/components/ImageClassifier.tsx:53-61 | After a series of drag events the highlight is on if the last event was `dragenter` or `dragover`, and off if it was `dragleave`. |
| `ImageClassifier.ActiveAfterIff` | project-files/project/src/components/ImageClassifier.tsx:53-61 | After a series of drag events, the highlight is on exactly when one of two things holds: some activating event has no `dragleave` after it, or the highlight was on before and no `dragleave` came. |
| `ImageClassifier.Classifier.HandleDrag` | project-files/project/src/components/ImageClassifier.tsx:53-61 | One drag event updates the highlight as `DragAfter` says, changes nothing else and keeps the invariant. |
| `ImageClassifier.Classifier.HandleDrop` | project-files/project/src/components/ImageClassifier.tsx:63-68 | A drop turns the highlight off and admits the dropped files as `HandleFiles` does, keeping the invariant. |
| `ImageClassifier.DisplayName` | project-files/project/src/components/ImageClassifier.tsx:149-151 | Names of at most 20 characters are shown as they are. Longer names are shown as their first 20 characters followed by `...`. |
| `ImageClassifier.DisplayNameIdempotent` | project-files/project/src/components/ImageClassifier.tsx:149-151 | Truncating a shown label again changes nothing. |
| `DiseaseDatabase.ToLower` | project-files/project/src/components/DiseaseDatabase.tsx:10-11 | Lowercasing maps each character to its lower-case form, position by position: letters A-Z become a-z, everything else is kept, and no upper-case letter remains. |
| `DiseaseDatabase.LowerIdempotent` | project-files/project/src/components/DiseaseDatabase.tsx:10-11 | Lowercasing twice is the same as lowercasing once. |
| `DiseaseDatabase.Includes` | project-files/project/src/components/DiseaseDatabase.tsx:10-11 | The empty needle is included in every text, and an included needle is no longer than the text. |
| `DiseaseDatabase.IncludesIff` | project-files/project/src/components/DiseaseDatabase.tsx:10-11 | `includes` holds exactly when the needle occurs at some position of the text. |
| `DiseaseDatabase.MatchesSearch` | project-files/project/src/components/DiseaseDatabase.tsx:10-11 | An empty search term matches every entry, and a term that matches is no longer than the entry's name or description. |
| `DiseaseDatabase.MatchesSeverity` | project-files/project/src/components/DiseaseDatabase.tsx:12 | The selector `all` and the entry's own severity name accept it. Any string that is neither `all` nor a severity name accepts nothing. |
| `DiseaseDatabase.Keep` | project-files/project/src/components/DiseaseDatabase.tsx:9-13 | The predicate handed to `filter` holds exactly when the entry matches both the search and the severity selector. |
| `DiseaseDatabase.FilteredDiseases` | project-files/project/src/components/DiseaseDatabase.tsx:9-14 | The listed diseases are catalog entries that match the search and the severity, and there are no more of them than catalog entries. |
| `DiseaseDatabase.FilteredMembership` | project-files/project/src/components/DiseaseDatabase.tsx:9-13 | A disease is listed if and only if it is in the catalog, its lowercased name or description contains the lowercased term, and the severity selector accepts it. |
| `DiseaseDatabase.FilteredInOrder` | project-files/project/src/components/DiseaseDatabase.tsx:9-14 | The listed diseases keep catalog order. |
| `DiseaseDatabase.AllSeveritiesIsSearchOnly` | project-files/project/src/components/DiseaseDatabase.tsx:12 | The selector `all` filters by the search term alone. |
| `DiseaseDatabase.SeveritySelectorExact` | project-files/project/src/components/DiseaseDatabase.tsx:12 | Any other selector keeps exactly the search matches whose severity name equals it. |
| `DiseaseDatabase.UnknownSeverityListsNothing` | project-files/project/src/components/DiseaseDatabase.tsx:12 | A selector that is neither `all` nor a severity name lists nothing. |
| `DiseaseDatabase.EmptyQueryListsAll` | project-files/project/src/components/DiseaseDatabase.tsx:10-12 | An empty search with `all` lists the whole catalog in order. |
| `DiseaseDatabase.CaseInsensitive` | project-files/project/src/components/DiseaseDatabase.tsx:10-11 | Search terms equal up to case give the same listing. |
| `DiseaseDatabase.PoxSearch` | project-files/project/src/data/diseases.ts:3-49 | Searching the catalog for `pox` with `all` lists only Fowl Pox. |
| `DiseaseDatabase.HighSeveritySearch` | project-files/project/src/data/diseases.ts:3-49 | An empty search with the selector `High` lists Newcastle Disease and Avian Influenza, in that order. |
| `DiseaseDatabase.SeverityTone` | project-files/project/src/components/DiseaseDatabase.tsx:16-40 | The shared switch of both style functions: red exactly for `High`, amber exactly for `Medium`, green exactly for `Low`, and gray for every other string. |
| `DiseaseDatabase.SeverityIcon` | project-files/project/src/components/DiseaseDatabase.tsx:16-27 | The icon's classes follow the severity's tone. The glyph is the alert triangle exactly for `High` and the shield exactly for `Low`. |
| `DiseaseDatabase.SeverityColor` | project-files/project/src/components/DiseaseDatabase.tsx:29-40 | The badge classes are those of the severity's tone: red, amber or green for the three severities, gray otherwise. |
| `DiseaseDatabase.CatalogSeveritiesStyled` | project-files/project/src/components/DiseaseDatabase.tsx:16-40 | No catalog entry falls into the gray fallback, and the three severities get three different badges. |
| `Catalog.CatalogIds` | project-files/project/src/data/diseases.ts:3-49 | The catalog has five entries with ids `newcastle`, `avian-flu`, `fowl-pox`, `coccidiosis` and `healthy`, in that order. |
| `Catalog.CatalogIdsDistinct` | project-files/project/src/data/diseases.ts:5-41 | The catalog ids are pairwise distinct. |
| `Catalog.CatalogSeverities` | project-files/project/src/data/diseases.ts:10-46 | The first two entries are High, the next two Medium and the last Low. |
| `Catalog.CatalogFourSymptoms` | project-files/project/src/data/diseases.ts:8-44 | Every catalog entry lists four symptoms. |
| `ArrayOps.Filter` | project-files/project/src/components/DiseaseDatabase.tsx:9 | `filter` returns no more elements than it is given, each of them from the input and passing the predicate. |
| `ArrayOps.FilterMultiset` | project-files/project/src/components/ImageClassifier.tsx:76 | `filter` keeps every passing element as many times as it occurs and drops the others: the result's multiset is the passing part of the input's. |
| `ArrayOps.FilterMembership` | project-files/project/src/components/ImageClassifier.tsx:76 | `filter` keeps an element if and only if it is in the input and passes the predicate. |
| `ArrayOps.FilterIsSubsequence` | project-files/project/src/components/DiseaseDatabase.tsx:9 | `filter` keeps input order. |

## Left out

- Rendering: the JSX markup, the result card and the remaining components (`App`, `Header`, `Dashboard`, `Analytics`, `About`) are not part of this model.
- Floating point: confidence is an exact real. The rounding of `Math.random() * 0.3 + 0.7`, the confidence colour thresholds, the percentage shown and the prevalence field are not modelled.
- Timers: the 2-4 second `setTimeout` delay is not modelled, nor is the interleaving of asynchronous React updates. Each completion is one atomic call. It may happen at any time after its id was scheduled, including after the record was removed, and at most once per id.
- Unmounting: the component is rendered only while the `classify` tab is open (`App.tsx:12-27`), and a tab switch unmounts it. The model has no unmount. The source has no unmount cleanup, so every preview still live at that moment is never revoked, and the no-leak clause of the invariant holds only while the component is mounted. Classifications still pending at unmount fire against the unmounted component, and this is not modelled either.
- Randomness, clock and id generator: these become parameters. `Date.now` plus a base-36 random string cannot be shown unique, so `HandleFiles` requires pairwise distinct ids and previews for the image files it admits (`FreshMints`). Each id must never have been scheduled before, and each preview never created before. It also takes a placeholder mint for each non-image file, which is never used.
- Object URLs: `URL.createObjectURL` and `URL.revokeObjectURL` are modelled only as entries in the ghost logs `created` and `revoked`.
- Lowercasing: `toLowerCase` is modelled for ASCII letters only; Unicode case mapping is not.
- DOM events: `preventDefault` and `stopPropagation` on drag events are not modelled. An event is represented by its type string, and a drop by its optional file list.
- `File`: only a file's name and media type are modelled.
- Catalog text: the long descriptions are written as concatenations of shorter literals, which denote the same strings. Every field of an entry is modelled (id, name, description, symptoms, treatment, severity) except `prevalence`.
- ImageClassifier.DisplayName: lengths and the cut point at 20 are counted in Unicode characters, not in JavaScript's UTF-16 code units. A name with emoji or other characters outside the Basic Multilingual Plane is therefore cut at a different place, or not cut where the source cuts it. The source can also split a surrogate pair at position 20, which the model cannot.
- DiseaseDatabase.SeverityIcon: returns a glyph plus a class string instead of a rendered icon element.
