# TV-script preprocessing utilities, modelled in Dafny

This project models the pure logic inside `Code/util.py` of a TV-script
generation pipeline:

- **Model file naming** (`save_model` / `load_model`): the file name a
  trained model is saved under is the base name of the given file, with its
  final extension replaced by `.pt`, joined to the current working
  directory. Module `ModelFiles` models `os.path.basename` and
  `os.path.splitext` for POSIX paths, the derived path, and the two
  functions over a store of saved models (a map from path to object).
- **Text normalisation** (first half of `preprocess_and_save_data`): each
  entry of the token dictionary, in iteration order, replaces every
  occurrence of its key with its placeholder padded by one space on each
  side. The text is then lowercased and split on runs of whitespace as
  Python's `str.split()` does. Module `Normalize`.
- **Stopword downsampling encoder** (second half): every token becomes its
  vocabulary id. A non-stopword is always kept; a stopword occurrence is
  kept only when its random draw succeeds. The draws are an explicit
  oracle `keep: seq<bool>`, one decision per stopword occurrence, in order.
  Module `Encoder`.
- **The pipeline** itself, producing the bundle that is pickled. Module
  `Preprocess`.

The working directory, the text already read from disk, the token
dictionary returned by `token_lookup()`, the `create_lookup_tables`
callable, the stopword set and the random draws are all parameters.

Two consequences of the naming scheme are proved rather than hidden. A
model saved from `foo/bar.txt` is what `load_model` returns for
`anything/bar.txt`: the directory is ignored. It is also what it returns
for `bar.csv`: the extension is ignored too (`LoadFromOtherDirectory`).

Only the final extension of the base name is removed, and only when
something other than dots precedes it in the base name: `"a.b.txt"` gives
`a.b.pt`, `".bashrc"` gives `.bashrc.pt`.

## Model

| member | source | states |
|---|---|---|
| ModelFiles.RFind | Code/util.py:48 | the result is the index of the last occurrence of the character, or -1 exactly when there is none |
| ModelFiles.Basename | Code/util.py:48 | posixpath.basename, `p[p.rfind('/') + 1:]`; its contract is carried by BasenameShape, BasenameIgnoresDirectory and BasenameOfName |
| ModelFiles.BasenameShape | Code/util.py:48 | the base name is a suffix of the path with no '/' in it, and what precedes it is empty or ends in '/', so it is the longest such suffix |
| ModelFiles.SplitExt | Code/util.py:48 | os.path.splitext on a POSIX path; its contract is carried by SplitExtShape, SplitExtOfStemAndExt and SplitExtOfLeadingDots |
| ModelFiles.SplitExtShape | Code/util.py:48 | root and extension concatenate to the input, and a non-empty extension is one '.' followed by neither '.' nor '/' |
| ModelFiles.SaveFilename | Code/util.py:48 | the save name ends in ".pt" |
| ModelFiles.SaveFilenameFromBase | Code/util.py:48 | the save name has no '/', and what precedes ".pt" is a prefix of the base name: only an extension was removed |
| ModelFiles.ModelPath | Code/util.py:49 | the path both save_model and load_model hand to torch (lines 49 and 55 compute it alike); its contract is carried by ModelPathShape and ModelPathIgnoresDirectory |
| ModelFiles.ModelPathShape | Code/util.py:49 | the full path is the working directory, one '/', then the save name, which holds no '/': the model file lies directly in the working directory |
| ModelFiles.SaveModel | Code/util.py:47-50 | the derived path now holds the model, no other path is added, and every other saved model is untouched |
| ModelFiles.LoadModel | Code/util.py:53-56 | loading succeeds exactly when the derived path holds a model, returns that model, and otherwise reports that path as not found |
| ModelFiles.RFindAppend | Code/util.py:48 | the last occurrence in a concatenation is the last one in the second part, or else the last one in the first part |
| ModelFiles.BasenameIgnoresDirectory | Code/util.py:48 | prefixing a path with a directory does not change its base name |
| ModelFiles.SplitExtOfStemAndExt | Code/util.py:48 | a stem without '/' that is not all dots, followed by an extension, splits back into exactly that stem and extension |
| ModelFiles.SplitExtOfLeadingDots | Code/util.py:48 | a name whose only dots lead it has no extension and is its own stem |
| ModelFiles.LoadAfterSave | Code/util.py:47-56 | save_model and load_model derive the same path, so loading a name just saved returns the saved model |
| ModelFiles.ModelPathIgnoresDirectory | Code/util.py:48-49 | two file names that differ only in their directory give the same save name and the same path |
| ModelFiles.LoadFromOtherDirectory | Code/util.py:47-56 | a model saved from one directory and extension is returned when loading the same stem from any directory with any extension |
| ModelFiles.SaveFilenameOfStem | Code/util.py:48 | for any directory, a stem with an extension saves as the stem plus ".pt" |
| ModelFiles.SaveFilenameOfPlainName | Code/util.py:48 | for any directory, a name whose only dots lead it ("README", ".bashrc") saves as the whole name plus ".pt" |
| ModelFiles.SaveFilenameOfName | Code/util.py:48 | a name without '/' saves as its root plus ".pt", whatever directory it lies in |
| ModelFiles.SaveFilenameKeepsInnerDots | Code/util.py:48 | a name like "a.b.txt", in any directory, saves as "a.b.pt": only the final extension is replaced |
| Normalize.ReplaceAll | Code/util.py:27 | replacing a key by itself leaves the text unchanged |
| Normalize.ReplaceChar | Code/util.py:27 | the character-by-character reference: the replaced character is gone unless the replacement holds it, and no character appears that was not in the text or the replacement |
| Normalize.Pad | Code/util.py:27 | the placeholder is the token with exactly one space on each side |
| Normalize.Substitute | Code/util.py:26-27 | the substitution loop; its contract is carried by SubstituteInOrder, SubstituteLast and SubstituteAbsentKeys |
| Normalize.Lower | Code/util.py:29 | lowercasing keeps the length, leaves no upper-case letter, turns each upper-case letter into its lower-case letter, keeps whitespace exactly where it was, and changes nothing else |
| Normalize.Normalize | Code/util.py:25-30 | every token produced is non-empty, free of whitespace and free of upper case |
| Normalize.ReplaceLeftmost | Code/util.py:27 | str.replace scans left to right: when no occurrence of a non-empty key begins before a given one, that occurrence is replaced and the search resumes right after it |
| Normalize.ReplaceAbsentKey | Code/util.py:27 | a non-empty key that does not occur leaves the text unchanged |
| Normalize.ReplaceOneCharKey | Code/util.py:27 | for a one-character key, str.replace equals the character-by-character reference: every occurrence and nothing else is replaced |
| Normalize.PaddedKeyRemoved | Code/util.py:27 | after a one-character key is replaced by its padded placeholder, no occurrence of it is left unless the placeholder holds it |
| Normalize.SubstituteInOrder | Code/util.py:26-27 | substituting with a dictionary split in two is substituting with the first part, then the second: entries apply one at a time, in order |
| Normalize.SubstituteLast | Code/util.py:26-27 | the last dictionary entry is replaced last, in the text all earlier entries produced |
| Normalize.SubstituteAbsentKeys | Code/util.py:26-27 | when no non-empty key occurs in the text, the substitution loop leaves it unchanged |
| Normalize.Words | Code/util.py:30 | str.split() with no separator; its contract is carried by WordsAreFields, WordsKeepText, WordsAroundSpace and WordsOfJoined |
| Normalize.WordsAreFields | Code/util.py:30 | no field of str.split() is empty or holds whitespace |
| Normalize.WordsAroundSpace | Code/util.py:30 | a whitespace character separates fields: splitting around it is splitting each side and concatenating |
| Normalize.OneWord | Code/util.py:30 | a non-empty text without whitespace is one field |
| Normalize.PaddedTokenStandsAlone | Code/util.py:27-30 | a padded placeholder becomes a token of its own, whatever text surrounds it |
| Normalize.WordsOfJoined | Code/util.py:30 | splitting " ".join(ws) gives back ws when every field is non-empty and free of whitespace |
| Normalize.WordsKeepText | Code/util.py:30 | the fields put end to end are the text with its whitespace removed |
| Normalize.LowerIdempotent | Code/util.py:29 | lowercasing twice is lowercasing once |
| Normalize.WordsOfLower | Code/util.py:29-30 | lowercasing then splitting gives the same tokens as splitting then lowercasing each token |
| Encoder.Decisions | Code/util.py:36 | the keep-mask has one entry per token and keeps every non-stopword |
| Encoder.DecisionsFollowDraws | Code/util.py:36 | read at the stopword positions, the keep-mask is exactly the sequence of draws |
| Encoder.EncodeText | Code/util.py:36 | the loop yields the ids of the kept occurrences in text order; exactly the stopwords whose draw failed are missing; every id is the id of a token of the text; the ids embed in order into the looked-up tokens with every non-stopword position used |
| Encoder.EncodingFacts | Code/util.py:36 | the reference encoding has the token count minus the failed draws as length, only ids of tokens of the text, and an order-preserving embedding covering every non-stopword |
| Encoder.SelectEmbeds | Code/util.py:36 | filtering with a mask is an order-preserving embedding that uses a position exactly when its mask bit is set |
| Encoder.DecisionsCount | Code/util.py:36 | the number of kept occurrences is the token count minus the number of failed draws |
| Encoder.StopCountIsFlagCount | Code/util.py:36 | the number of draws the filter makes is the number of stopword positions of the text |
| Encoder.LookupSelect | Code/util.py:36 | looking up the kept tokens equals keeping the looked-up ids |
| Encoder.NonStopwordsKept | Code/util.py:33-36 | for any draws, removing stopwords from the kept tokens gives exactly the non-stopwords of the text, in order |
| Encoder.DecodeEncoded | Code/util.py:32-36 | with an id-to-word table inverse to the word-to-id table on the text, the ids decode to the kept tokens |
| Encoder.AlwaysKeep | Code/util.py:36 | when every draw succeeds nothing is dropped |
| Encoder.NeverKeep | Code/util.py:36 | when every draw fails exactly the non-stopwords remain |
| Preprocess.PreprocessData | Code/util.py:25-38 | the bundle carries the token dictionary and the tables built over the tokens plus "<PAD>" unchanged; its ids are exactly the looked-up tokens the draws keep, in text order, embedding in order into the looked-up tokens with every non-stopword position used; there is at most one id per token, each the id of a token of the text; with inverse tables its ids decode to tokens whose non-stopwords are exactly those of the text, in order |

## Left out

- `load_data` (file reading, `Code/util.py:9-17`): the text is a parameter; I/O and text-mode newline translation are not modelled.
- `pickle.dump` of the bundle and `load_preprocess` (`Code/util.py:38`, `:41-45`): serialisation round trips belong to the library; `PreprocessData` returns the bundle that would be written.
- `torch.save` / `torch.load` (`Code/util.py:50`, `:56`): the model object is opaque; the files are a map from path to object, so only the path they receive and the not-found case are modelled.
- `os.getcwd()`: a parameter.
- `random.random() < 0.5`: replaced by the keep-decision oracle; the 50% rate is statistical and not stated.
- The contents of the NLTK English stopword list: the stopword set is a parameter.
- `token_lookup` and `create_lookup_tables`: caller-supplied collaborators, taken as a value and a function parameter. That the tables are dense and mutually inverse is their promise, not this code's; it appears only as the hypothesis `InverseOn`. That the word-to-id table covers the tokens plus `<PAD>` is assumed by `requires Covers` (and by `EncodeText`'s requires that every token is in the table), so the lookup error that line 36 would raise for a missing word is not modelled.
- Normalize.PaddedKeyRemoved: stated for one-character keys only; with a longer key the text around a replacement can form the key again, so for those keys the model proves the leftmost-scan characterisation (`ReplaceLeftmost`, `ReplaceAbsentKey`) instead.
- Normalize.Lower: lowercases ASCII `A`-`Z` only; Python's `str.lower()` applies full Unicode case mapping.
- Normalize.Normalize: "free of upper case" means free of ASCII upper case, for the same reason.
- Windows path rules (`ntpath`): paths are POSIX, as the code's own `"/"` join assumes.
- Concurrent writers to the same model file: last writer wins, which the map update models; crash atomicity is not modelled.
