# Text normalisation of the sentiment-classification service

The FastAPI service cleans every review with `normalize_text` before it
vectorises it and asks the model for a sentiment. `normalize_text` runs six
string stages in a fixed order:

1. `lower_case`
2. `remove_stop_words`
3. `removing_numbers`
4. `removing_punctuations`
5. `removing_urls`
6. `lemmatization`

This project models those stages and their composition as pure Dafny
functions over `string` (`seq<char>`), and proves what each stage promises
and what follows from the order of the stages.

Modules:

- `PyStr` (`pystr.dfy`) — the Python string built-ins the stages are made of:
  - `str.isspace` (the same whitespace set that `\s`, `str.split()` and `str.strip()` use);
  - ASCII `str.isdigit` and `str.lower`;
  - `str.split()` and `" ".join`;
  - `str.strip()` and `re.sub('\s+', ' ', ...)`;
  - the character filter behind a list comprehension with a condition.
- `UrlRegex` (`url_regex.dfy`) — the pattern `https?://\S+|www\.\S+`: where it matches and how far a match reaches.
- `App` (`app.dfy`) — the six stages and `normalize_text`, each with its contract and the lemmas that give it a partner: a fixed-point characterisation, idempotence, or a token-by-token or character-by-character description.
- `StageOrder` (`stage_order.dfy`) — behaviours that follow from the order of the stages, stated for all inputs of a given shape, with small instances:
  - the URL stage never sees a URL;
  - stop words can reappear after digits or punctuation are removed;
  - digits inside a word merge its pieces;
  - the Arabic semicolon is deleted where ASCII punctuation becomes a blank.

The two foreign libraries are parameters:

- the English stop-word list of NLTK is a `set<string>`;
- `WordNetLemmatizer().lemmatize` is a function `string -> string`.

Lemmas about token counts after lemmatization assume `KeepsTokens`: the lemmatizer maps a non-empty, whitespace-free token to one.

A URL-removal stage might be expected to turn `"see http://example.com/page now"` into `"see now"`. The code does not. `removing_punctuations` runs before `removing_urls`, so the URL has already become `http example com page` when the URL pattern is tried, and it survives as those four tokens. The model follows the code (`App.UrlStageIsIdentity`, `StageOrder.UrlWordCharactersSurvive`).

## Model

| member | source | states |
|---|---|---|
| PyStr.IsSpace | fastapi_app/app.py:47 | the whitespace of `str.isspace`, which `\s`, `str.split()` and `str.strip()` all use |
| PyStr.IsDigit | fastapi_app/app.py:34 | `char.isdigit()` on the ASCII digits `0` to `9` |
| PyStr.Lower | fastapi_app/app.py:40 | `word.lower()` on ASCII: same length, no upper-case letter left, a token stays a token, and a word without upper case is unchanged |
| PyStr.Filter | fastapi_app/app.py:34 | the list comprehension with a condition: the kept elements are exactly the input's elements that pass the test, never more of them than the input has |
| PyStr.Split | fastapi_app/app.py:22 | `str.split()`: every piece is a non-empty whitespace-free token made of characters of the input |
| PyStr.Join | fastapi_app/app.py:24 | `" ".join(toks)`: the pieces in order with one blank between neighbours; `SplitJoin` and `JoinCanonical` state what it promises |
| PyStr.SplitJoin | fastapi_app/app.py:24 | splitting `" ".join(toks)` gives back `toks` when every piece is a token |
| PyStr.JoinCanonical | fastapi_app/app.py:41 | `" ".join` of tokens has no edge whitespace and no double whitespace, and every whitespace character is a blank; it is empty only for no tokens |
| PyStr.CanonicalJoinSplit | fastapi_app/app.py:30 | a single-spaced string without edge whitespace is `" ".join` of its own `split()` |
| PyStr.CollapseWhitespace | fastapi_app/app.py:47 | `re.sub('\s+', ' ', s)`: every whitespace character left is a blank, no two are adjacent, empty exactly when the input is |
| PyStr.Strip | fastapi_app/app.py:47 | `str.strip()`: no leading or trailing whitespace |
| PyStr.StripCollapseIsJoinSplit | fastapi_app/app.py:47 | `re.sub('\s+', ' ', s).strip()` equals `" ".join(s.split())`, which is single-spaced |
| PyStr.VisibleJoinSplit | fastapi_app/app.py:47 | collapsing and stripping whitespace keeps every non-whitespace character, in order |
| UrlRegex.MatchLength | fastapi_app/app.py:52 | the match at the start of a string is non-empty exactly when the pattern matches there; it covers the whole leading non-whitespace word and stops at whitespace |
| UrlRegex.MatchesAt | fastapi_app/app.py:52 | the alternation of `https?://\S+` and `www\.\S+` at the start of a string: one of the three literal prefixes followed by a non-whitespace character |
| UrlRegex.MatchDependsOnWord | fastapi_app/app.py:52 | whether the pattern matches depends only on the leading word |
| UrlRegex.NoColonNoDotNoMatch | fastapi_app/app.py:52 | a string with no `:` and no `.` has no match anywhere |
| App.Lemmatization | fastapi_app/app.py:19-24 | text with no tokens becomes `""` |
| App.MapTokens | fastapi_app/app.py:23 | `[f(word) for word in toks]`: token k of the result is `f` of token k |
| App.LemmatizationMapsTokens | fastapi_app/app.py:19-24 | with a token-for-token lemmatizer: same token count, token k of the result is the lemma of token k of the input, result single-spaced |
| App.RemoveStopWords | fastapi_app/app.py:26-30 | the result is single-spaced and made of blanks and input characters |
| App.KeptWords | fastapi_app/app.py:29 | a token is kept exactly when it is an input token and not a stop word; never more tokens than the input |
| App.RemoveStopWordsTokens | fastapi_app/app.py:29-30 | result tokens are exactly the non-stop-word input tokens (membership both ways, multiplicity, order); token count never grows; with no stop words the result is `" ".join(text.split())` |
| App.RemoveStopWordsUnchanged | fastapi_app/app.py:26-30 | the stage leaves its input alone exactly when the input is single-spaced and no token is a stop word |
| App.RemoveStopWordsIdempotent | fastapi_app/app.py:26-30 | applying the stage twice equals applying it once |
| App.RemovingNumbers | fastapi_app/app.py:32-35 | a character is in the result exactly when it is in the input and is not a digit; every non-digit keeps its count and order; never longer; unchanged exactly when the input has no digit |
| App.RemovingNumbersConcat | fastapi_app/app.py:34 | digit removal works character by character: it distributes over concatenation |
| App.PunctuationIsPythons | fastapi_app/app.py:45 | the four ASCII ranges used by the model are exactly `string.punctuation` |
| App.IsPunctuation | fastapi_app/app.py:45 | the regex character class built from `string.punctuation`; `PunctuationIsPythons` shows it is exactly those 32 characters |
| App.ReplacePunctuation | fastapi_app/app.py:45 | every punctuation character becomes a blank in place, every other character is kept, length unchanged |
| App.DeleteArabicSemicolon | fastapi_app/app.py:46 | `text.replace('؛', "")`: a character is in the result exactly when it is in the input and is not `؛` |
| App.DeleteArabicSemicolonKeepsOthers | fastapi_app/app.py:46 | every other character keeps its count and order |
| App.RemovingPunctuations | fastapi_app/app.py:43-48 | no ASCII punctuation and no `؛` in the result; only blanks and input characters; single-spaced with no edge whitespace; equal to `" ".join` of the tokens after the two substitutions |
| App.RemovingPunctuationsKeepsWordChars | fastapi_app/app.py:43-48 | the non-whitespace characters of the result are exactly the input's characters that are neither whitespace nor punctuation, in order |
| App.RemovingPunctuationsUnchanged | fastapi_app/app.py:43-48 | the stage leaves its input alone exactly when the input is single-spaced and holds no punctuation of either kind |
| App.RemovingPunctuationsIdempotent | fastapi_app/app.py:43-48 | applying the stage twice equals applying it once |
| App.RemovingUrls | fastapi_app/app.py:50-53 | the leftmost-match scan never lengthens the text and only keeps input characters; `RemovingUrlsAtSpace` and `RemovingUrlsWord` pin down the result for every input |
| App.RemovingUrlsLeadingWord | fastapi_app/app.py:53 | the leading word of the result is a prefix of the input |
| App.RemovingUrlsLeavesNoMatch | fastapi_app/app.py:50-53 | no position of the result starts a match of the pattern |
| App.RemovingUrlsIsSubsequence | fastapi_app/app.py:53 | what remains keeps its order: the result is a subsequence of the input |
| App.RemovingUrlsKeepsWhitespace | fastapi_app/app.py:52-53 | every whitespace character of the input is kept, in order, since a match never spans whitespace |
| App.RemovingUrlsAtSpace | fastapi_app/app.py:52-53 | a match never crosses whitespace: the stage works separately on the text before and after any whitespace character and keeps that character |
| App.FirstMatch | fastapi_app/app.py:52 | the leftmost position where the pattern matches (the length of the text if none): no match before it, a match at it |
| App.RemovingUrlsWord | fastapi_app/app.py:53 | within one whitespace-free word the stage keeps exactly the text before the first match and deletes the rest of the word; with `RemovingUrlsAtSpace` this fixes the result for every input |
| App.RemovingUrlsUnchanged | fastapi_app/app.py:50-53 | the stage leaves its input alone exactly when the pattern matches nowhere |
| App.RemovingUrlsIdempotent | fastapi_app/app.py:50-53 | applying the stage twice equals applying it once |
| App.RemovingUrlsWithoutColonOrDot | fastapi_app/app.py:52-53 | text with no `:` and no `.` is unchanged |
| App.UrlStageIsIdentity | fastapi_app/app.py:65-66 | the URL stage never changes the output of the punctuation stage |
| App.LowerCase | fastapi_app/app.py:37-41 | the tokens of the result are the lower-cased input tokens; same token count; no upper-case letter; single-spaced with no edge whitespace |
| App.LowerCaseUnchanged | fastapi_app/app.py:37-41 | the stage leaves its input alone exactly when the input is single-spaced and has no upper-case letter |
| App.LowerCaseIdempotent | fastapi_app/app.py:37-41 | applying the stage twice equals applying it once |
| App.LemmatizerInput | fastapi_app/app.py:62-66 | stages 1 to 5 compose to stages 1 to 4; the string given to lemmatization is single-spaced with no edge whitespace, and has no upper-case letter, digit or punctuation |
| App.NormalizeText | fastapi_app/app.py:61-69 | total; text with no tokens, `""` included, becomes `""` |
| App.NormalizeTextTokens | fastapi_app/app.py:61-69 | with a token-for-token lemmatizer the result is single-spaced and holds the lemma of every cleaned token, in order |
| StageOrder.UrlAloneIsRemoved | fastapi_app/app.py:52-53 | a URL token on its own is deleted entirely by the URL stage |
| StageOrder.UrlWordCharactersSurvive | fastapi_app/app.py:45 | after stages 4 and 5 the non-whitespace characters are exactly the input's word characters, so the letters of a URL survive |
| StageOrder.DigitRemovalJoinsPieces | fastapi_app/app.py:34 | removing a digit between two digit-free pieces concatenates them into one |
| StageOrder.AsciiPunctuationSeparates | fastapi_app/app.py:45 | ASCII punctuation between two clean tokens becomes one blank |
| StageOrder.ArabicSemicolonJoinsPieces | fastapi_app/app.py:46 | `؛` between two clean tokens is deleted and they become one token |
| StageOrder.StopWordCanSurvive | fastapi_app/app.py:62-64 | a clean stop word with a digit attached reaches lemmatization as the stop word |
| StageOrder.PunctuationCanUncoverStopWord | fastapi_app/app.py:63-65 | a token `w` + punctuation + `v` that is not a stop word reaches lemmatization as `w v`, even when `w` is a stop word |
| StageOrder.StopWordAloneVanishes | fastapi_app/app.py:62-63 | a clean stop word on its own is removed entirely |
| StageOrder.CleaningIsNotIdempotent | fastapi_app/app.py:62-66 | running stages 1 to 5 twice can remove a stop word that one run leaves in |
| StageOrder.StopWordWithDigitExample | fastapi_app/app.py:62-65 | with the stop word `the`, `the1` reaches lemmatization as `the` |
| StageOrder.ApostropheExample | fastapi_app/app.py:62-65 | with the stop word `don`, `don't` reaches lemmatization as `don t` |
| StageOrder.DigitInsideWordExample | fastapi_app/app.py:34 | `a1b` becomes `ab` |
| StageOrder.ArabicSemicolonExample | fastapi_app/app.py:46-47 | `a؛b` becomes `ab` |
| StageOrder.AsciiSemicolonExample | fastapi_app/app.py:45-47 | `a;b` becomes `a b` |
| StageOrder.UrlExample | fastapi_app/app.py:52-53 | the pattern matches `http://x`, and the URL stage alone deletes it |
| StageOrder.UrlAfterWordExample | fastapi_app/app.py:52-53 | text before a URL survives: `ab http://x` becomes `ab ` |

## Left out

- `str.lower` and `str.isdigit` are modelled on ASCII only. Python also lower-cases and recognises digits outside ASCII; `PyStr.IsUpper`, `PyStr.LowerChar` and `PyStr.IsDigit` do not.
- Whitespace is modelled exactly as Python's `str.isspace` set. The `re` module's `\s` and `str.split()` use the same set for `str` patterns.
- The NLTK English stop-word corpus and the WordNet lemmatizer are parameters. Their contents are outside the code.
- App.LemmatizationMapsTokens: states token counts only for a lemmatizer that maps tokens to tokens (`KeepsTokens`). For other lemmatizers only the empty-text case is stated.
- App.NormalizeTextTokens: same `KeepsTokens` assumption as `App.LemmatizationMapsTokens`.
- `remove_small_sentences` (fastapi_app/app.py:55-59) is not modelled, for three reasons:
  - nothing calls it;
  - it uses `np`, which the file never imports;
  - it updates a pandas DataFrame in place.
- Startup and serving are not modelled, since they are I/O, network and foreign-library calls:
  - the environment and MLflow set-up;
  - model and vectorizer loading;
  - the FastAPI routes and template rendering;
  - `vectorizer.transform` and `model.predict`.
- The concrete instances in `StageOrder` use short strings such as `a1b` and `http://x`. Longer inputs such as `http://example.com` are covered by the general lemmas `StageOrder.UrlWordCharactersSurvive` and `App.UrlStageIsIdentity`.
