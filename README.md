# Medical abbreviation expander: inference helpers in Dafny

This project models the inference-side helpers of the medical abbreviation
expander in Dafny. The expander replaces Dutch clinical abbreviations (such as
"AF") with one of their expansions ("ademfrequentie", "atriumfibrilleren"),
and a trained scorer chooses which expansion fits the sentence. The model
covers:

- the mapping store of `pipeline/api/data.py`:
  - choosing the newest mapping and data snapshot among the processed files (`FileHandler._get_latest`);
  - flattening the parsed mapping file into one expansion-to-abbreviation dict (`FileHandler.load_mapping`);
- the helpers of `pipeline/api/inference.py`:
  - falling back to the newest checkpoint (`check_model`);
  - inverting the mapping into abbreviation-to-candidates lists (`get_invert_mapping`);
  - expanding the abbreviations found in a sentence (`expand_abbreviation`).

The model works in the Python program's own terms.

- **Dicts.** A Python `dict` with string keys is a `Dict`: the key list in insertion order plus a key-to-value map (`Collections`). `d[k] = v` is `Put`: a new key goes last, and an existing key keeps its place.
- **Paths** (`Paths`).
  - A path is the list of its components, compared as `pathlib` compares POSIX paths: component by component, each component as a `str` by code point.
  - `suffix` is `PurePath.suffix` (Suffix), built on `PurePath.name` (Name) and `str.rfind(".")` (LastDot).
  - `sorted(..., reverse=True)` is an insertion sort. A uniqueness lemma shows that every correct descending sort gives the same list, so Python's own sort gives this result too.
- **Strings** (`Text`). `p in s`, `s.replace(p, r)` and `s.count(p)` follow Python's definitions.
  - Replacement scans left to right and does not overlap.
  - The empty pattern is modelled as well (Python inserts `r` around every character), so `replace` has no precondition.
- **Mapping store** (`Data`): `GetLatest` and `LoadMapping`.
- **Inference helpers** (`Inference`): `CheckModel`, the inversion loop `InvertMapping`, `GetInvertMapping` and `ExpandAbbreviation`.
- **Worked instances** (`Scenarios`) on a two-record mapping file in which both expansions share the abbreviation "AF".

Inputs from the outside world are parameters:

- the list of files that `walk_dir` would yield;
- whether the configured checkpoint exists;
- the parsed content of the mapping file;
- the model suffix;
- the scorer. The scorer is a total function from the sentence pair and the candidate tuple to the index its `argmax` selects.

Two behaviours of the code are worth stating plainly:

- In the `len(models) == 0` branch of `check_model` (pipeline/api/inference.py:23-24), it logs an error and returns the configured path instead of raising.
- `load_mapping` folds every pair of every record, so a record with several entries contributes them all.

## Model

| member | source | states |
|---|---|---|
| Data.FileHandler.GetLatest | pipeline/api/data.py:37-45 | Fails with NoMappingFile exactly when no file has the mapping suffix. Fails with NoDataFile exactly when some file has the mapping suffix and none has the data suffix. Otherwise returns a listed mapping-suffix file that is at least every other such file, and likewise a data-suffix file. |
| Data.GetLatestIgnoresOrder | pipeline/api/data.py:38-44 | Two listings with the same files give the same `_get_latest` result, in every case, failures included. |
| Data.FoundExactlyWhenAny | pipeline/api/data.py:39-44 | The comprehension over the sorted files is non-empty exactly when some listed file has the suffix, so `[0]` fails exactly then. |
| Data.FileHandler.LoadMapping | pipeline/api/data.py:47-72 | The nested loops leave `result` equal to assigning all items of all records in order, starting from `{}`, and the result is a well-formed dict. |
| Data.FlattenKeys | pipeline/api/data.py:69-71 | A key is in the flattened dict exactly when some record, of any size, has an item with that key. |
| Data.FlattenValuesFromRecords | pipeline/api/data.py:69-71 | Every value kept for a key was given for that key in some record; no value is invented. |
| Data.FlattenLastRecordWins | pipeline/api/data.py:67-71 | Last write wins: the value for a key is the one at its last place in the last record that has it. |
| Data.FlattenKeyOrder | pipeline/api/data.py:65-72 | The dict lists its keys in the order of their first appearance in the file. Reassigning a key does not move it. |
| Data.AssignLastWins | pipeline/api/data.py:71 | After `result[key] = value` over a list of items, a key holds the value of its last item. |
| Data.AssignKeyOrder | pipeline/api/data.py:71 | The keys after the assignments are the item keys without repeats, each kept at its first place. |
| Paths.FirstOfSortedIsLatest | pipeline/api/data.py:39-41 | The first file with a suffix in the descending sort is a listed file with that suffix and is at least every listed file with it. |
| Paths.LatestIsUnique | pipeline/api/data.py:40-42 | The greatest file with a suffix depends only on which files are listed. |
| Paths.SortedDescUnique | pipeline/api/data.py:40 | Two descending arrangements of the same multiset of paths are equal, so any correct `sorted(reverse=True)` gives SortDesc's result. |
| Paths.SortDescIgnoresOrder | pipeline/api/data.py:40 | `sorted(files, reverse=True)` does not depend on the listing order. |
| Paths.SortDesc | pipeline/api/data.py:40 | The result is sorted greatest first and is a permutation of the input. |
| Paths.LastDot | pipeline/api/data.py:40 | `str.rfind(".")`: -1 or an index holding a dot, with no dot after it. |
| Paths.Suffix | pipeline/api/data.py:40 | The suffix is non-empty exactly when the file name has a dot that is neither its first nor its last character and no dot after it. In that case the suffix is the name from that dot on: a dot, at least one character, no further dot. Otherwise it is empty. |
| Paths.WithSuffix | pipeline/api/data.py:40 | The comprehension keeps exactly the listed files with the given suffix. It is the list filter, so it keeps their order (Collections.FilterHead). |
| Paths.StrLe | pipeline/api/data.py:40 | `str` comparison: a prefix is at most every string it begins, and otherwise the first position where the two differ decides, by code point. |
| Paths.PathLe | pipeline/api/data.py:40 | Path comparison, which `sorted` uses: a path is at most every path below it, and otherwise the first component where the two differ decides, compared as `str`. PathLeTotal, PathLeAntisymmetric and PathLeTransitive make it a total order. |
| Paths.PathLeTotal | pipeline/api/data.py:40 | Any two paths are comparable. |
| Paths.PathLeAntisymmetric | pipeline/api/data.py:40 | Paths that are each at most the other are equal. |
| Paths.PathLeTransitive | pipeline/api/data.py:40 | The path order is transitive. |
| Inference.CheckModel | pipeline/api/inference.py:13-31 | An existing configured path is returned unchanged. A missing one is replaced by a greatest file with the model suffix when there is one. Otherwise the configured path is returned and nothing fails. |
| Inference.CheckModelIgnoresOrder | pipeline/api/inference.py:21-26 | The fallback checkpoint does not depend on the order in which the model directory is listed. |
| Inference.InvertMapping | pipeline/api/inference.py:38-40 | The loop that appends each key to the list of its value builds Invert(mapping). |
| Inference.InvertRoundTrip | pipeline/api/inference.py:39-40 | Every mapping key k is among the candidates of `mapping[k]`. |
| Inference.InvertSound | pipeline/api/inference.py:39-40 | Each candidate of an abbreviation a is a mapping key whose value is a. |
| Inference.InvertKeySet | pipeline/api/inference.py:38-41 | The inverse is a well-formed dict whose keys are exactly the values of the mapping. |
| Inference.InvertNonEmpty | pipeline/api/inference.py:40 | No abbreviation of the inverse has an empty candidate list. |
| Inference.InvertGroupsInMappingOrder | pipeline/api/inference.py:38-41 | Each candidate list follows mapping iteration order. Each mapping key occurs exactly once in the list of its own value and in no other list. |
| Inference.InvertKeyOrder | pipeline/api/inference.py:38-40 | The abbreviations appear in the order in which the mapping first uses them. |
| Inference.InvertPrefixKeys | pipeline/api/inference.py:38-40 | After the first n iterations, the keys of the partial inverse are exactly the values seen so far, in first-seen order. |
| Inference.InvertPrefixGroups | pipeline/api/inference.py:38-40 | After the first n iterations, the list of each abbreviation holds the keys seen so far that map to it, in order. |
| Inference.GetInvertMapping | pipeline/api/inference.py:34-41 | Fails as `_get_latest` fails. Otherwise returns the inverse of the flattened content of the newest mapping file. |
| Inference.InvertIsWellFormed | pipeline/api/inference.py:34-41 | What `get_invert_mapping` builds is a dict with a non-empty candidate list per abbreviation, as `expand_abbreviation` needs. |
| Inference.Abbreviations | pipeline/api/inference.py:47 | A key is collected exactly when it is a key of the inverse mapping that occurs in the sentence. |
| Inference.AbbreviationsInKeyOrder | pipeline/api/inference.py:47 | The collected keys keep the inverse mapping's key order and repeat nothing. |
| Inference.Choose | pipeline/api/inference.py:49-58 | The expansion taken from the scorer's index is one of the abbreviation's own candidates. |
| Inference.ExpandAbbreviation | pipeline/api/inference.py:44-60 | The loop returns Expand(sentence, ...). That is, it replaces each abbreviation collected from the original sentence, in key order, each time in the sentence built so far. |
| Inference.ExpandWithoutAbbreviations | pipeline/api/inference.py:47-48 | A sentence in which no key of the inverse occurs is returned unchanged. |
| Inference.ExpandAllFront | pipeline/api/inference.py:48-59 | The first abbreviation is resolved with the scorer shown the original sentence. The remaining ones are resolved on the sentence that replacement produced. |
| Inference.ExpandAllUsesCandidates | pipeline/api/inference.py:48-59 | Whatever the scorer returns, the result is the sentence with, in order, all occurrences of each abbreviation replaced by one of its own candidates. |
| Inference.ExpandUsesCandidates | pipeline/api/inference.py:44-60 | The same for `expand_abbreviation` as a whole, over the abbreviations collected from the original sentence. |
| Text.Contains | pipeline/api/inference.py:47 | `key in sentence`: a key that occurs is no longer than the sentence. ContainsAt states the meaning. |
| Text.ContainsAt | pipeline/api/inference.py:47 | `key in sentence` holds exactly when the key occurs at some position of the sentence. |
| Text.Replace | pipeline/api/inference.py:59 | `sentence.replace(abbr, expansion)` leaves a sentence without the abbreviation unchanged. ReplaceAtFirstOccurrence states the behaviour for a non-empty pattern, and ReplaceEmptyPattern states it for the empty one. |
| Text.ReplaceEmptyPattern | pipeline/api/inference.py:59 | `s.replace("", r)` has length `len(s) + len(s) * len(r) + len(r)`. Slot i holds r followed by `s[i]`, and the result ends with r: r comes before every character and once more at the end. |
| Text.ReplaceAtFirstOccurrence | pipeline/api/inference.py:59 | `replace` scans left to right. Up to the first occurrence nothing changes, that occurrence becomes the expansion, and the scan resumes after it. |
| Text.ReplaceLength | pipeline/api/inference.py:59 | Every occurrence counted by `str.count` is replaced: the length changes by the length difference once per occurrence. |
| Text.ReplaceWithItself | pipeline/api/inference.py:59 | Replacing an abbreviation by itself changes nothing. |
| Text.ReplaceIntroduces | pipeline/api/inference.py:59 | When the abbreviation occurs, the chosen expansion occurs in the result. |
| Text.ReplaceLeadingOnly | pipeline/api/inference.py:59 | A sentence that starts with the abbreviation and has no other occurrence has just that occurrence replaced. |
| Collections.Filter | pipeline/api/inference.py:47 | A list comprehension with a condition keeps exactly the elements that pass it. |
| Collections.FilterHead | pipeline/api/data.py:39-44 | The first element kept is the first element of the input that passes the condition, which is what `[...][0]` takes. |
| Collections.Empty | pipeline/api/data.py:65 | `{}`, and the fresh `defaultdict(list)` of pipeline/api/inference.py:38, is a well-formed dict with no keys listed and none mapped. |
| Collections.Dict.Put | pipeline/api/data.py:71 | `d[k] = v` keeps a dict well formed: no key listed twice, and the listed keys are exactly the mapped ones. |
| Collections.Dict.PutEffect | pipeline/api/inference.py:40 | After `d[k] = v`, k holds v and every other key keeps its presence and value. An existing key keeps its place, and a new key is listed last. |
| Collections.FilterKeepsOrder | pipeline/api/inference.py:47 | A comprehension over keys without repeats keeps the surviving keys in their original order. |
| Collections.Dedup | pipeline/api/data.py:71 | The keys without repeats: no repeats, and the same members as the input. |
| Scenarios.AfInverse | pipeline/api/inference.py:34-41 | For the file `[{"ademfrequentie": "AF"}, {"atriumfibrilleren": "AF"}]`, the inverse maps "AF" to both expansions, in file order. |
| Scenarios.AfExpansion | pipeline/api/inference.py:44-60 | With a scorer that picks the first candidate, "AF 20" becomes "ademfrequentie 20". |
| Scenarios.IntroducedAbbreviationStays | pipeline/api/inference.py:47-59 | An abbreviation brought in by an expansion ("RR" inside the expansion of "AF") is not expanded in turn, because the list of abbreviations comes from the original sentence. |

## Left out

- `walk_dir`, `Path.exists`, `open` and `json.load` are filesystem access, so their results are parameters. A file that does not parse, or a parsed value that is not a list of string-to-string objects, is not modelled.
- Missing snapshots end in Python's `IndexError` on `[0]`. The model returns a `Failure` that names which selection was empty. As in the code, a missing mapping file is reported before the data file is looked at.
- GetLatest: takes the listing as given. The resolution of symbolic links by `resolve()` and the drive and root parts of absolute paths are not modelled. All resolved paths share the same root, so only the components below it are compared. POSIX paths are assumed: `WindowsPath` compares case-folded parts, which is not modelled.
- The model suffix is a parameter. `filetypes.PYTORCHMODEL`, used by `check_model` at pipeline/api/inference.py:22, is not defined in the `FileTypes` settings (pipeline/api/settings.py:36-38). As written, that comprehension raises `AttributeError` as soon as the model directory yields one file, so the shipped program never reaches the fallback branch. CheckModel models the evidently intended code, with the model suffix given as a parameter.
- Logging and `print` (pipeline/api/inference.py:15-29, 50) have no effect on results and are omitted.
- The scorer `AbbrvtExpander` (pipeline/api/layers.py) is not modelled. It is a RoBERTa encoder with cosine similarity over floating-point tensors. Its `argmax` is an oracle returning an index into the candidate tuple it was shown. How ties are broken and which candidate the model actually prefers are not modelled.
- ExpandAbbreviation: requires that every candidate list is non-empty and that the scorer returns an index in range. The code would fail inside the model or `argmax` on an empty candidate tuple. For inverses built by `get_invert_mapping` this cannot happen (InvertIsWellFormed).
- The `defaultdict` returned by `get_invert_mapping` is modelled as a plain dict. Its default of `[]` for missing keys is never used, because `expand_abbreviation` looks up only keys it took from the dict itself.
- The `"sum"` branch of `_agg` in the encoder layers computes a mean (pipeline/api/layers.py:47-48, pipeline/train/layers.py:34-35). It is floating-point code and is not modelled.
- Training (pipeline/train/trainloop.py, train.py), the data tools (datatools.py), the settings modules, the web endpoint (pipeline/api/serve.py) and the GUI (pipeline/gui/show.py) are I/O, numeric training or wiring, and are not modelled.
- The training helpers `Datastreamer`, `TxtDataset` and the metrics module are not part of this model.
- The `bucket`, `data_dir` and `processed` fields of `FileHandler` and its `__repr__` are not modelled. The model keeps only the two suffixes that the modelled operations read.
