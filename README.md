# Gemini image generation: a verified model of its decision logic

`generate-image.py` is a command-line script. It takes a prompt, an output path and a few options. It finds a `GEMINI_API_KEY`, builds a `generateContent` request (the prompt plus up to 14 reference images, an image configuration for non-Flash models, and optional Google Search grounding), and sends it to the Gemini API. It then writes the first inline image of the response to the output file. This project models the parts of the script that decide anything:

- **Key-file parsing** (`_read_key_from_file`). A line counts when, once stripped, it starts with `GEMINI_API_KEY=`. Its value is the text after the first `=`, with whitespace, then `"`, then `'` removed from both ends. Empty values are skipped. The first line with a value wins.
- **Key precedence** (`load_api_key`). The order is: the `--env-file` file, then the environment variable, then `./.env.local`, `./.env`, `~/.env.local` and `~/.env`.
- **Request building** (`build_request`). This covers the reference count limit, the missing-reference error, the MIME type chosen from the lower-cased suffix, the order of the parts, the `imageConfig` field for non-Flash models and the `tools` field for grounding.
- **Response extraction** (`extract_and_save_image`). It walks items → candidates → parts, collects the texts that are not thoughts, writes the first inline image, and fails when there is none.
- **Size normalisation and `main`'s order of stages**. The order is: size, key, request, API call, extraction, then the check that the output file is not empty.

Modules, one per file:

- `Wrappers`: `Option` and `Result`.
- `PyStr`: the Python string operations the script uses (`strip`, `startswith`, `split('=', 1)`, `in`, `lower`/`upper`, `join`, slicing).
- `ApiKey`: key-file parsing and precedence.
- `Request`: request building. Besides the data model it holds the suffix and MIME rules.
- `Extract`: response extraction.
- `Cli`: size normalisation, and `main` as the composition of the stages.

Where the script loops, the model has a method with a loop:

- `ApiKey.ReadKeyFromFile` and `ApiKey.LoadApiKey` (loops with early return);
- `Request.CollectParts` (checks the count and each reference, appending its part) and `Request.BuildRequest` (calls it, then adds the optional fields);
- `Extract.ExtractAndSaveImage`, with one method per nesting level: `ScanCandidates` and `ScanParts`.

Each method is proved equal to a specification function: `FileKey`, `ResolveKey`, `PartsWith`, `RequestFor` and `Extraction`. `CollectParts` is proved for every rule that maps a path to a MIME type; `BuildRequest` passes it `MimeType`, so its proof does not depend on how a path is read. The lemmas state the promised properties about those functions. The loop methods for extraction keep the invariant `Consistent`: the texts collected so far are the visible texts of the parts seen, and an image is held exactly when those parts contain an image part. `Cli.Generate` runs the methods in `main`'s order and is proved equal to `Cli.Run`.

Everything outside the script's own logic is an input of the model:

- **File system.** A key file is `Option<seq<string>>`: its lines, or `None` when it does not exist or cannot be read. A reference is its path, whether it exists, and its bytes.
- **Environment variable.** An `Option<string>`.
- **HTTP call.** A function parameter from key, model and request to a response or an API error.
- **`base64.b64encode` / `b64decode`.** Function parameters. The decoder returns `None` where `b64decode` raises.

The file that `extract_and_save_image` writes is the value `Written(outcome)`.

## Model

| member | source | states |
|---|---|---|
| PyStr.StripChars | skills/gemini-image-generation/scripts/generate-image.py:171 | Definition of `s.strip(cs)`: characters of the set removed from both ends, with no pairing. |
| PyStr.Strip | skills/gemini-image-generation/scripts/generate-image.py:167 | Definition of `s.strip()`: `strip` over the characters `str.isspace` accepts. |
| PyStr.AfterFirst | skills/gemini-image-generation/scripts/generate-image.py:170 | Definition of `s.split(c, 1)[1]` when `c` occurs: the text after the first `c`. |
| PyStr.Contains | skills/gemini-image-generation/scripts/generate-image.py:233 | Definition of `t in s` on strings, by recursion on `s`. |
| PyStr.Lower | skills/gemini-image-generation/scripts/generate-image.py:200 | Definition of `s.lower()` on ASCII letters. |
| PyStr.Upper | skills/gemini-image-generation/scripts/generate-image.py:328 | Definition of `s.upper()` on ASCII letters. |
| PyStr.Join | skills/gemini-image-generation/scripts/generate-image.py:310 | Definition of `sep.join(parts)`. |
| PyStr.StripShape | skills/gemini-image-generation/scripts/generate-image.py:167-171 | Stripping a set of characters leaves a contiguous slice of the input whose first and last characters are not in the set. |
| PyStr.StripPadded | skills/gemini-image-generation/scripts/generate-image.py:167-171 | Stripping removes exactly the padding of characters from the set around a core that neither starts nor ends with one. |
| PyStr.AfterFirstSplit | skills/gemini-image-generation/scripts/generate-image.py:170 | When the stem holds no `=`, `split("=", 1)[1]` of the stem, then `=`, then `v`, is `v`, even if `v` contains further `=`. |
| PyStr.ContainsIff | skills/gemini-image-generation/scripts/generate-image.py:232 | The substring test `t in s` holds exactly when `t` occurs at some index of `s`. |
| PyStr.Take | skills/gemini-image-generation/scripts/generate-image.py:310 | `s[:n]` is the prefix of `s` of length `n`, or all of `s` when it is no longer than `n`. |
| ApiKey.Unquote | skills/gemini-image-generation/scripts/generate-image.py:171 | Definition of the value clean-up: whitespace, then `"`, then `'` stripped from both ends. |
| ApiKey.LineValue | skills/gemini-image-generation/scripts/generate-image.py:167-173 | Definition of what one line yields: the cleaned value of a stripped `GEMINI_API_KEY=` line, when it is non-empty. |
| ApiKey.FirstKey | skills/gemini-image-generation/scripts/generate-image.py:166-173 | Definition of a readable file's key: the first line value present, in file order. |
| ApiKey.FileKey | skills/gemini-image-generation/scripts/generate-image.py:162-176 | Definition of `_read_key_from_file`: no key for a file that cannot be opened, otherwise `FirstKey`. |
| ApiKey.EnvironmentKey | skills/gemini-image-generation/scripts/generate-image.py:141-143 | Definition of the environment source: an unset or empty variable gives no key. |
| ApiKey.ResolveKey | skills/gemini-image-generation/scripts/generate-image.py:131-159 | Definition of `load_api_key`: the first of the six candidates that yields a key. |
| ApiKey.UnquoteQuoted | skills/gemini-image-generation/scripts/generate-image.py:171 | A key with nothing strippable at its ends survives unquoting, whether it is bare, in double quotes or in single quotes. |
| ApiKey.KeyPrefixSplit | skills/gemini-image-generation/scripts/generate-image.py:168-170 | The value of a line `GEMINI_API_KEY=v` is all of `v`. |
| ApiKey.KeyLineRoundTrip | skills/gemini-image-generation/scripts/generate-image.py:166-173 | A key written bare, double-quoted or single-quoted after `GEMINI_API_KEY=`, with any surrounding whitespace, is read back exactly. |
| ApiKey.EmptyValuesSkipped | skills/gemini-image-generation/scripts/generate-image.py:171-173 | `GEMINI_API_KEY=` and `GEMINI_API_KEY=""` give no key. |
| ApiKey.LineValueShape | skills/gemini-image-generation/scripts/generate-image.py:167-173 | A line gives a key only when, once stripped, it starts with the prefix; the key is non-empty and neither starts nor ends with `'`. |
| ApiKey.LineValuesAt | skills/gemini-image-generation/scripts/generate-image.py:166-173 | The per-line values are read line by line, in file order. |
| ApiKey.FirstKeyLine | skills/gemini-image-generation/scripts/generate-image.py:166-176 | A file's key is the value of its first line that yields one; there is none exactly when no line yields one. |
| ApiKey.ReadKeyFromFile | skills/gemini-image-generation/scripts/generate-image.py:162-176 | The loop with early return computes `FileKey`: no key for an unreadable file, otherwise the first key line's value. |
| ApiKey.FileKeyNonEmpty | skills/gemini-image-generation/scripts/generate-image.py:172-173 | A key read from a file is never empty. |
| ApiKey.Candidates | skills/gemini-image-generation/scripts/generate-image.py:135-157 | There are exactly six sources, in precedence order. |
| ApiKey.FirstSome | skills/gemini-image-generation/scripts/generate-image.py:135-159 | The first present value: none exactly when every entry is absent, otherwise the earliest present entry. |
| ApiKey.FirstSomeAt | skills/gemini-image-generation/scripts/generate-image.py:135-159 | A present entry preceded only by absent ones is the result. |
| ApiKey.LoadApiKey | skills/gemini-image-generation/scripts/generate-image.py:131-159 | The sequence of early returns computes `ResolveKey`: the first source, in precedence order, that yields a key. |
| ApiKey.ResolvedKeyNonEmpty | skills/gemini-image-generation/scripts/generate-image.py:141-143 | Any key found is non-empty, so `main`'s `if not api_key` is exactly the no-key case. |
| ApiKey.EnvFileWins | skills/gemini-image-generation/scripts/generate-image.py:134-138 | A key from the `--env-file` file beats every other source. |
| ApiKey.EnvironmentBeatsDotFiles | skills/gemini-image-generation/scripts/generate-image.py:140-143 | Without a key from `--env-file`, a non-empty environment variable beats every dotenv file. |
| ApiKey.DotFileOrder | skills/gemini-image-generation/scripts/generate-image.py:145-157 | Otherwise the first of `.env.local`, `.env`, `~/.env.local`, `~/.env` that yields a key supplies it. |
| ApiKey.NoKeyIff | skills/gemini-image-generation/scripts/generate-image.py:131-159 | No key is found exactly when all six sources fail. |
| Request.FileName | skills/gemini-image-generation/scripts/generate-image.py:200 | Definition of `Path(p).name`: the last `/`-separated component once trailing separators are dropped. |
| Request.Suffix | skills/gemini-image-generation/scripts/generate-image.py:200 | Definition of `Path(p).suffix`: from the last dot of the name, unless that dot is its first or last character. |
| Request.MimeType | skills/gemini-image-generation/scripts/generate-image.py:200-208 | Definition of the MIME lookup: the lower-cased suffix looked up in the five-entry table, `image/png` otherwise. |
| Request.AfterLastNone | skills/gemini-image-generation/scripts/generate-image.py:200 | A text without the separator is its own last component. |
| Request.AfterLastSplit | skills/gemini-image-generation/scripts/generate-image.py:200 | The text after the last separator is what follows its final occurrence. |
| Request.SuffixOfFile | skills/gemini-image-generation/scripts/generate-image.py:200 | `Path(dir/stem.ext).suffix` is `.ext` for a non-empty stem and a dot-free extension. |
| Request.MimeTypeTable | skills/gemini-image-generation/scripts/generate-image.py:200-208 | The MIME type is JPEG exactly for `.jpg`/`.jpeg`, GIF for `.gif`, WebP for `.webp`, and PNG for every other lower-cased suffix. |
| Request.MimeTypeIgnoresCase | skills/gemini-image-generation/scripts/generate-image.py:200-208 | `photos/cat.JPG` is sent as `image/jpeg`. |
| Request.MimeTypeDefault | skills/gemini-image-generation/scripts/generate-image.py:208 | An unknown suffix such as `.bmp` falls back to `image/png`. |
| Request.DotFileHasNoSuffix | skills/gemini-image-generation/scripts/generate-image.py:200-208 | `.webp` on its own has no suffix and is sent as `image/png`. |
| Request.FirstMissing | skills/gemini-image-generation/scripts/generate-image.py:194-197 | The first reference, in input order, that does not exist; none exactly when all exist. |
| Request.ReferencePart | skills/gemini-image-generation/scripts/generate-image.py:210-219 | Definition of one reference's `inline_data` part: the MIME type of its path and its encoded bytes. |
| Request.ReferenceParts | skills/gemini-image-generation/scripts/generate-image.py:194-219 | Each reference contributes exactly one part. |
| Request.ReferencePartsAt | skills/gemini-image-generation/scripts/generate-image.py:194-219 | The part at index `k` is the inline-data part of reference `k`, with its MIME type and encoded bytes. |
| Request.IsFlash | skills/gemini-image-generation/scripts/generate-image.py:233 | Definition of `"flash" in model.lower()`. |
| Request.PartsWith | skills/gemini-image-generation/scripts/generate-image.py:185-219 | Definition of the parts `build_request` sends: the count error, then the first missing reference, otherwise the prompt and each reference's part. |
| Request.Assemble | skills/gemini-image-generation/scripts/generate-image.py:221-241 | Definition of the request dictionary around the parts, with `imageConfig` unless the model is Flash and `tools` when grounding is `"true"`. |
| Request.RequestFor | skills/gemini-image-generation/scripts/generate-image.py:182-243 | Definition of `build_request`: `PartsWith` under `MimeType`, then `Assemble`. |
| Request.CollectParts | skills/gemini-image-generation/scripts/generate-image.py:185-219 | The loop with early exits computes `PartsWith` for any MIME rule: the count error first, then the first missing reference, otherwise the prompt followed by every reference's part in order. |
| Request.BuildRequest | skills/gemini-image-generation/scripts/generate-image.py:182-243 | The appending loop and the two dict updates compute `RequestFor`: the count check first, then the first missing reference, then the request. |
| Request.TooManyRejected | skills/gemini-image-generation/scripts/generate-image.py:190-192 | More than 14 references is refused on the count alone, before any path is looked at. |
| Request.MissingRejected | skills/gemini-image-generation/scripts/generate-image.py:194-197 | Within the limit, the first missing reference is the one reported. |
| Request.BuildSucceedsIff | skills/gemini-image-generation/scripts/generate-image.py:189-197 | A request is returned exactly when there are at most 14 references and all of them exist. |
| Request.PartsInOrder | skills/gemini-image-generation/scripts/generate-image.py:186-226 | One `user` content: the prompt, then one inline-data part per reference in input order, each with its MIME type and encoded bytes, so there is one part more than there are references. |
| Request.ConfigFields | skills/gemini-image-generation/scripts/generate-image.py:221-241 | Both modalities are always requested. `imageConfig` is present exactly when "flash" does not occur in the lower-cased model, and then holds the ratio verbatim and the size upper-cased. `tools` is `[google_search]` exactly when grounding is `"true"`. |
| Request.NotContainsFirst | skills/gemini-image-generation/scripts/generate-image.py:232 | A text in which the pattern's first character never occurs does not contain the pattern. |
| Request.FlashModelIsFlash | skills/gemini-image-generation/scripts/generate-image.py:232-236 | The documented Flash model `gemini-2.5-flash-image` gets no image configuration. |
| Request.ProModelIsNotFlash | skills/gemini-image-generation/scripts/generate-image.py:232-236 | The default model `gemini-3-pro-image-preview` (line 41) gets one. |
| Extract.Written | skills/gemini-image-generation/scripts/generate-image.py:304-307 | Definition of the output file's contents: the decoded image, nothing when there was no image, empty when decoding raises after the file was opened. |
| Extract.Traversal | skills/gemini-image-generation/scripts/generate-image.py:283-292 | Definition of the flattened traversal: every part of every candidate of every item, in loop order. |
| Extract.VisibleTexts | skills/gemini-image-generation/scripts/generate-image.py:294-295 | Definition of the collected texts: the `text` of every non-thought part, in order. |
| Extract.FirstImage | skills/gemini-image-generation/scripts/generate-image.py:298-299 | Definition of the image written: the `data` of the first part with `inlineData`. |
| Extract.Extraction | skills/gemini-image-generation/scripts/generate-image.py:279-318 | Definition of `extract_and_save_image` on the traversal: no image found, undecodable first image, or its decoded bytes with the visible texts. |
| Extract.FirstImageShape | skills/gemini-image-generation/scripts/generate-image.py:298-307 | There is a first image exactly when some part carries `inlineData`; it is the data of the earliest such part. |
| Extract.Preview | skills/gemini-image-generation/scripts/generate-image.py:309-311 | A preview exists exactly when some text was collected; it is the prefix of the texts joined by single spaces of length 200, or that whole string when it is no longer. |
| Extract.VisibleTextsAppend | skills/gemini-image-generation/scripts/generate-image.py:294-295 | Text collection distributes over concatenation of the traversal. |
| Extract.FirstImageAppend | skills/gemini-image-generation/scripts/generate-image.py:298-307 | The first image of a concatenation is the one in the first half if there is one, otherwise the one in the second. |
| Extract.AllPartsAppend | skills/gemini-image-generation/scripts/generate-image.py:288-292 | The traversal of a concatenation of items is the concatenation of their traversals. |
| Extract.CandidatePartsAppend | skills/gemini-image-generation/scripts/generate-image.py:290-292 | The parts of a concatenation of candidates are the concatenation of their parts. |
| Extract.StepConsistent | skills/gemini-image-generation/scripts/generate-image.py:292-307 | Handling one part appends its text when it is visible and takes its image when none is held, which keeps the state consistent with the parts seen. |
| Extract.FirstImageKept | skills/gemini-image-generation/scripts/generate-image.py:298 | Once an image has been met, nothing that follows changes which image is first. |
| Extract.ScanParts | skills/gemini-image-generation/scripts/generate-image.py:291-307 | The loop over one candidate's parts moves the state from the parts seen before to those plus this candidate's parts, or stops at the first image when it does not decode. |
| Extract.ScanCandidates | skills/gemini-image-generation/scripts/generate-image.py:289-307 | The same for every candidate of one item, with missing `content` or `parts` counting as no parts. |
| Extract.ExtractAndSaveImage | skills/gemini-image-generation/scripts/generate-image.py:279-318 | The nested loops with the `image_saved` flag compute `Extraction`: the visible texts and the decoded first image; no image found; or the undecodable data. |
| Extract.ObjectIsOneElementArray | skills/gemini-image-generation/scripts/generate-image.py:283 | A single response object is handled as the one-element list holding it. |
| Extract.FirstImageWins | skills/gemini-image-generation/scripts/generate-image.py:298-307 | The first part with `inlineData` is the image written, whatever image parts follow it. |
| Extract.WrittenByFirstImage | skills/gemini-image-generation/scripts/generate-image.py:298-316 | The output file depends only on the first image: nothing is written without one, its decoding when it decodes, and an empty file when decoding raises. |
| Extract.FirstImageOfMoreItems | skills/gemini-image-generation/scripts/generate-image.py:288-307 | Once the items seen hold an image, more items leave the first image as it is. |
| Extract.LaterItemsIgnored | skills/gemini-image-generation/scripts/generate-image.py:288-307 | Appending items to a response that already holds an image never changes what is written. |
| Extract.NoImageMeansFailure | skills/gemini-image-generation/scripts/generate-image.py:313-316 | Without any `inlineData` part the extraction fails and writes nothing, even when text was collected. |
| Extract.ThoughtsAreHidden | skills/gemini-image-generation/scripts/generate-image.py:294-295 | Thought parts contribute no text, so a response made only of thoughts has nothing to preview. |
| Extract.MissingFieldsAreEmpty | skills/gemini-image-generation/scripts/generate-image.py:289-291 | A missing `candidates`, `content` or `parts` contributes no parts. |
| Cli.NormalizeSize | skills/gemini-image-generation/scripts/generate-image.py:328-332 | Definition of the size check: the upper-cased size when it is in `VALID_SIZES`, otherwise an error carrying it. |
| Cli.Run | skills/gemini-image-generation/scripts/generate-image.py:324-397 | Definition of `main`'s outcome: size, key, request, API call, extraction and the non-empty file check, each failing stage ending the run. |
| Cli.UpperTwo | skills/gemini-image-generation/scripts/generate-image.py:328 | A two-character text upper-cases to digit-then-`K` exactly when it is that digit followed by `K` or `k`. |
| Cli.SizeAcceptedIff | skills/gemini-image-generation/scripts/generate-image.py:328-332 | A size is accepted exactly when it is `1K`, `2K` or `4K` in either case. The accepted value is the upper-cased form and is in `VALID_SIZES` (line 40). A rejection reports the upper-cased input. |
| Cli.NormalizedSizeIsFixed | skills/gemini-image-generation/scripts/generate-image.py:328-332 | An accepted size is unchanged by upper-casing it again, as `build_request` does. |
| Cli.Generate | skills/gemini-image-generation/scripts/generate-image.py:324-397 | Running the loop methods in `main`'s order computes `Run`. |
| Cli.ValidationPrecedesApiCall | skills/gemini-image-generation/scripts/generate-image.py:328-380 | When the size, the key or the references fail, `main` fails, and does so identically whatever the API would answer: nothing is sent first. |
| Cli.SizeCheckedFirst | skills/gemini-image-generation/scripts/generate-image.py:328-335 | An invalid size is reported, as upper-cased, whatever keys are available. |
| Cli.RunSucceedsIff | skills/gemini-image-generation/scripts/generate-image.py:324-397 | `main` succeeds exactly when every stage succeeds and the first image decodes to non-empty bytes, and the bytes it leaves in the output file are those. |

## Left out

- Argument parsing, the usage text and every banner and progress message. `--aspect-ratio` and `--grounding` are limited to their choices by argparse; the model takes them as given strings.
- `call_gemini_api`: the HTTPS POST and JSON (de)serialisation. It is a function parameter returning a response or an `ApiError` (HTTP status and body, or any other exception).
- `base64.b64encode` and `b64decode`: parameters of the model. No encode/decode round trip is claimed.
- `os.path.exists`, `open`, `expanduser` and reading files: inputs (existence flags, lines, bytes). A reference that exists but cannot be opened raises in the script; the model does not have that case.
- `os.makedirs`, and the actual writes of the output file: the written content is the value `Written`. Failures to create the directory or to write are not modelled.
- The empty file left behind when `b64decode` raises after the output file was opened for writing. This is modelled as `Some([])`; the traceback itself is not.
- The `json.dumps(response)[:500]` preview and every `print`: console output only. The text preview is modelled as a value (`Extract.Preview`).
- Malformed JSON shapes (an `inlineData` without `data`, non-string `text`, a truthy non-boolean `thought`): the response datatype only holds well-formed shapes, with a boolean `thought`.
- `Request.MimeType`: `.lower()` and `.upper()` are modelled on ASCII letters only; every other character is left unchanged. The same holds for `Cli.NormalizeSize`.
- `Request.Suffix`: `Path.suffix` is modelled with `/` as the only separator, trailing separators dropped, and no collapsing of `.` components or Windows drive letters.
- Interrupted reads of a key file: a file whose read fails part-way is given as the lines read before the error. Those lines were already scanned, so a key among them is returned and otherwise there is no key.
