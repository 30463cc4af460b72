/**
 * Construction of the generateContent request body: validation of the reference
 * images, their MIME types, the ordered list of parts, and the model- and
 * grounding-dependent fields.
 *
 * A reference is the path the user gave, whether that path exists, and the bytes of
 * the file. Base64 encoding is a parameter `encode` whose definition is not modelled.
 */
module Request {
  import opened Wrappers
  import opened PyStr

  type byte = b: int | 0 <= b < 256

  datatype Reference = Reference(path: string, present: bool, bytes: seq<byte>)

  /** One entry of `contents[0].parts`: `{text: ...}` or `{inline_data: {mime_type, data}}`. */
  datatype Part = Text(text: string) | InlineData(mimeType: string, data: string)

  datatype Content = Content(role: string, parts: seq<Part>)

  datatype ImageConfig = ImageConfig(aspectRatio: string, imageSize: string)

  datatype GenerationConfig = GenerationConfig(responseModalities: seq<string>, imageConfig: Option<ImageConfig>)

  /** `{google_search: {}}` */
  datatype Tool = GoogleSearch

  /** The JSON body; `imageConfig` and `tools` are keys that may be absent. */
  datatype Request = Request(contents: seq<Content>, generationConfig: GenerationConfig, tools: Option<seq<Tool>>)

  datatype BuildError = TooManyReferences(count: nat) | ReferenceNotFound(path: string)

  const MaxReferences: nat := 14

  const MimeTypes: map<string, string> :=
    map[".png" := "image/png", ".jpg" := "image/jpeg", ".jpeg" := "image/jpeg",
        ".gif" := "image/gif", ".webp" := "image/webp"]

  const DefaultMimeType: string := "image/png"

  /** The text after the last `c` of `s`; all of `s` when there is no `c`. */
  function AfterLast(s: string, c: char): string
  {
    if s == [] then []
    else if s[|s| - 1] == c then []
    else AfterLast(s[..|s| - 1], c) + [s[|s| - 1]]
  }

  /** `Path(p).name`: the final component, once trailing separators are dropped. */
  function FileName(path: string): string
  {
    AfterLast(TrimRight(path, {'/'}), '/')
  }

  /** `Path(p).suffix`: from the last dot of the name, unless that dot is its first or last character. */
  function Suffix(path: string): string
  {
    var name := FileName(path);
    var ext := AfterLast(name, '.');
    if 0 < |ext| < |name| - 1 then ['.'] + ext else []
  }

  /** The MIME type sent for a reference image: looked up by lower-cased suffix, PNG by default. */
  function MimeType(path: string): string
  {
    var ext := Lower(Suffix(path));
    if ext in MimeTypes then MimeTypes[ext] else DefaultMimeType
  }

  lemma {:induction false} AfterLastNone(s: string, c: char)
    requires c !in s
    ensures AfterLast(s, c) == s
  {
    if s != [] {
      AfterLastNone(s[..|s| - 1], c);
    }
  }

  lemma {:induction false} AfterLastSplit(a: string, c: char, b: string)
    requires c !in b
    ensures AfterLast(a + [c] + b, c) == b
    decreases |b|
  {
    var s := a + [c] + b;
    if b != [] {
      var n := |b| - 1;
      assert s[..|s| - 1] == a + [c] + b[..n];
      AfterLastSplit(a, c, b[..n]);
    }
  }

  /**
   * The suffix of `dir/stem.ext` is `.ext` whenever the stem is not empty and the
   * extension holds no dot: a name like `cat.JPG` or `archive.tar.gz` under any directory.
   */
  lemma SuffixOfFile(dir: string, stem: string, ext: string)
    requires dir == [] || dir[|dir| - 1] == '/'
    requires stem != [] && '/' !in stem
    requires ext != [] && '.' !in ext && '/' !in ext
    ensures Suffix(dir + stem + "." + ext) == "." + ext
  {
    var name := stem + "." + ext;
    var path := dir + name;
    assert dir + stem + "." + ext == path;
    assert path[|path| - 1] == ext[|ext| - 1];
    assert TrimRight(path, {'/'}) == path;
    if dir == [] {
      assert path == name;
      AfterLastNone(name, '/');
    } else {
      var d := dir[..|dir| - 1];
      assert path == d + ['/'] + name;
      AfterLastSplit(d, '/', name);
    }
    assert FileName(path) == name;
    assert name == stem + ['.'] + ext;
    AfterLastSplit(stem, '.', ext);
  }

  /** The MIME table: JPEG for `.jpg`/`.jpeg`, GIF, WebP, and PNG for `.png` and everything else. */
  lemma MimeTypeTable(path: string)
    ensures MimeType(path) == "image/jpeg" <==> Lower(Suffix(path)) == ".jpg" || Lower(Suffix(path)) == ".jpeg"
    ensures MimeType(path) == "image/gif" <==> Lower(Suffix(path)) == ".gif"
    ensures MimeType(path) == "image/webp" <==> Lower(Suffix(path)) == ".webp"
    ensures MimeType(path) == "image/png" <==>
      Lower(Suffix(path)) !in {".jpg", ".jpeg", ".gif", ".webp"}
  {
  }

  /** The suffix is matched whatever its case: `photos/cat.JPG` is sent as JPEG. */
  lemma MimeTypeIgnoresCase()
    ensures MimeType("photos/cat.JPG") == "image/jpeg"
  {
    SuffixOfFile("photos/", "cat", "JPG");
    assert "photos/" + "cat" + "." + "JPG" == "photos/cat.JPG";
    assert "." + "JPG" == ".JPG";
    assert Lower(".JPG") == ".jpg";
    assert MimeTypes[".jpg"] == "image/jpeg";
  }

  /** An unknown suffix falls back to PNG. */
  lemma MimeTypeDefault()
    ensures MimeType("scan.bmp") == "image/png"
  {
    SuffixOfFile([], "scan", "bmp");
    assert [] + "scan" + "." + "bmp" == "scan.bmp";
    assert "." + "bmp" == ".bmp";
    assert Lower(".bmp") == ".bmp";
    assert ".bmp" !in MimeTypes;
  }

  /** A dot-file such as `.webp` has no suffix at all, so it too is sent as PNG. */
  lemma DotFileHasNoSuffix()
    ensures Suffix(".webp") == []
    ensures MimeType(".webp") == "image/png"
  {
    var name := ".webp";
    assert TrimRight(name, {'/'}) == name;
    AfterLastNone(name, '/');
    assert name == [] + ['.'] + "webp";
    AfterLastSplit([], '.', "webp");
    assert Lower([]) == [];
  }

  /** The index of the first reference whose path does not exist. */
  function FirstMissing(refs: seq<Reference>): (r: Option<nat>)
    ensures r.None? <==> forall i :: 0 <= i < |refs| ==> refs[i].present
    ensures r.Some? ==> r.value < |refs| && !refs[r.value].present &&
                        forall j :: 0 <= j < r.value ==> refs[j].present
  {
    if refs == [] then None
    else if !refs[0].present then Some(0)
    else
      match FirstMissing(refs[1..])
      case None => None
      case Some(i) => Some(i + 1)
  }

  /**
   * The inline-data part sent for one reference image, given the rule that picks
   * its MIME type from its path (`MimeType` in the request itself).
   */
  function ReferencePart(ref: Reference, mimeType: string -> string, encode: seq<byte> -> string): Part
  {
    InlineData(mimeType(ref.path), encode(ref.bytes))
  }

  /** The inline-data parts of the references, in input order. */
  function ReferenceParts(refs: seq<Reference>, mimeType: string -> string, encode: seq<byte> -> string): (ps: seq<Part>)
    ensures |ps| == |refs|
  {
    if refs == [] then []
    else ReferenceParts(refs[..|refs| - 1], mimeType, encode) + [ReferencePart(refs[|refs| - 1], mimeType, encode)]
  }

  lemma {:induction false} ReferencePartsAt(refs: seq<Reference>, mimeType: string -> string, encode: seq<byte> -> string, k: nat)
    requires k < |refs|
    ensures ReferenceParts(refs, mimeType, encode)[k] == ReferencePart(refs[k], mimeType, encode)
  {
    var last := |refs| - 1;
    if k < last {
      ReferencePartsAt(refs[..last], mimeType, encode, k);
    }
  }

  lemma ReferencePartsSnoc(refs: seq<Reference>, mimeType: string -> string, encode: seq<byte> -> string, i: nat)
    requires i < |refs|
    ensures ReferenceParts(refs[..i + 1], mimeType, encode) ==
            ReferenceParts(refs[..i], mimeType, encode) + [ReferencePart(refs[i], mimeType, encode)]
  {
    assert refs[..i + 1][..i] == refs[..i];
  }

  /** `"flash" in model.lower()`: the Flash models take no image configuration. */
  predicate IsFlash(model: string)
  {
    Contains(Lower(model), "flash")
  }

  /** The parts `build_request` sends, or the validation error it stops with. */
  function PartsWith(prompt: string, refs: seq<Reference>, mimeType: string -> string,
                     encode: seq<byte> -> string): Result<seq<Part>, BuildError>
  {
    if |refs| > MaxReferences then Failure(TooManyReferences(|refs|))
    else match FirstMissing(refs)
      case Some(i) => Failure(ReferenceNotFound(refs[i].path))
      case None => Success([Text(prompt)] + ReferenceParts(refs, mimeType, encode))
  }

  /** The request around valid parts, with `imageConfig` for non-Flash models and `tools` for grounding. */
  function Assemble(parts: seq<Part>, aspectRatio: string, imageSize: string, model: string, grounding: string): Request
  {
    var imageConfig := if IsFlash(model) then None else Some(ImageConfig(aspectRatio, Upper(imageSize)));
    var tools := if grounding == "true" then Some([GoogleSearch]) else None;
    Request([Content("user", parts)], GenerationConfig(["TEXT", "IMAGE"], imageConfig), tools)
  }

  /** The request `build_request` returns, or the validation error it stops with. */
  function RequestFor(prompt: string, aspectRatio: string, imageSize: string, model: string,
                      refs: seq<Reference>, grounding: string, encode: seq<byte> -> string): Result<Request, BuildError>
  {
    match PartsWith(prompt, refs, MimeType, encode)
    case Failure(e) => Failure(e)
    case Success(parts) => Success(Assemble(parts, aspectRatio, imageSize, model, grounding))
  }

  /**
   * Starts the parts with the prompt, checks the count and then each reference in
   * turn as it appends its part. It is proved for every MIME rule, so that its proof
   * does not depend on how `MimeType` reads a path.
   */
  method CollectParts(prompt: string, references: seq<Reference>, mimeType: string -> string,
                      encode: seq<byte> -> string)
    returns (result: Result<seq<Part>, BuildError>)
    ensures result == PartsWith(prompt, references, mimeType, encode)
  {
    var parts := [Text(prompt)];
    if |references| > 0 {
      if |references| > MaxReferences {
        return Failure(TooManyReferences(|references|));
      }
      for i := 0 to |references|
        invariant parts == [Text(prompt)] + ReferenceParts(references[..i], mimeType, encode)
        invariant forall k :: 0 <= k < i ==> references[k].present
      {
        var ref := references[i];
        if !ref.present {
          return Failure(ReferenceNotFound(ref.path));
        }
        ReferencePartsSnoc(references, mimeType, encode, i);
        parts := parts + [InlineData(mimeType(ref.path), encode(ref.bytes))];
      }
      assert references[..|references|] == references;
    } else {
      assert parts == [Text(prompt)] + ReferenceParts(references, mimeType, encode);
    }
    assert FirstMissing(references).None?;
    return Success(parts);
  }

  /** Collects the parts, then adds the optional fields to the request dictionary. */
  method BuildRequest(prompt: string, aspectRatio: string, imageSize: string, model: string,
                      references: seq<Reference>, grounding: string, encode: seq<byte> -> string)
    returns (result: Result<Request, BuildError>)
    ensures result == RequestFor(prompt, aspectRatio, imageSize, model, references, grounding, encode)
  {
    var parts := CollectParts(prompt, references, MimeType, encode);
    if parts.Failure? {
      return Failure(parts.error);
    }
    var request := Request([Content("user", parts.value)], GenerationConfig(["TEXT", "IMAGE"], None), None);
    if !IsFlash(model) {
      request := request.(generationConfig := request.generationConfig.(
        imageConfig := Some(ImageConfig(aspectRatio, Upper(imageSize)))));
    }
    if grounding == "true" {
      request := request.(tools := Some([GoogleSearch]));
    }
    return Success(request);
  }

  /** More than 14 references is refused on the count alone, whatever the references are. */
  lemma TooManyRejected(prompt: string, aspectRatio: string, imageSize: string, model: string,
                        refs: seq<Reference>, grounding: string, encode: seq<byte> -> string)
    requires |refs| > MaxReferences
    ensures RequestFor(prompt, aspectRatio, imageSize, model, refs, grounding, encode) == Failure(TooManyReferences(|refs|))
  {
  }

  /** Otherwise the first reference, in input order, whose path does not exist is reported. */
  lemma MissingRejected(prompt: string, aspectRatio: string, imageSize: string, model: string,
                        refs: seq<Reference>, grounding: string, encode: seq<byte> -> string, k: nat)
    requires |refs| <= MaxReferences
    requires k < |refs| && !refs[k].present
    requires forall j :: 0 <= j < k ==> refs[j].present
    ensures RequestFor(prompt, aspectRatio, imageSize, model, refs, grounding, encode) == Failure(ReferenceNotFound(refs[k].path))
  {
  }

  /** A request is built exactly when there are at most 14 references and every one of them exists. */
  lemma BuildSucceedsIff(prompt: string, aspectRatio: string, imageSize: string, model: string,
                         refs: seq<Reference>, grounding: string, encode: seq<byte> -> string)
    ensures RequestFor(prompt, aspectRatio, imageSize, model, refs, grounding, encode).Success? <==>
      |refs| <= MaxReferences && forall i :: 0 <= i < |refs| ==> refs[i].present
  {
  }

  /**
   * One user content whose parts are the prompt followed by one inline-data part per
   * reference, in input order, each with its MIME type and encoded bytes.
   */
  lemma PartsInOrder(prompt: string, aspectRatio: string, imageSize: string, model: string,
                     refs: seq<Reference>, grounding: string, encode: seq<byte> -> string)
    requires RequestFor(prompt, aspectRatio, imageSize, model, refs, grounding, encode).Success?
    ensures var r := RequestFor(prompt, aspectRatio, imageSize, model, refs, grounding, encode).value;
      && |r.contents| == 1 && r.contents[0].role == "user"
      && |r.contents[0].parts| == 1 + |refs|
      && r.contents[0].parts[0] == Text(prompt)
      && forall i :: 0 <= i < |refs| ==>
           r.contents[0].parts[i + 1] == InlineData(MimeType(refs[i].path), encode(refs[i].bytes))
  {
    var parts := [Text(prompt)] + ReferenceParts(refs, MimeType, encode);
    forall i | 0 <= i < |refs| ensures parts[i + 1] == ReferencePart(refs[i], MimeType, encode) {
      ReferencePartsAt(refs, MimeType, encode, i);
    }
  }

  /**
   * Both modalities are always requested; `imageConfig` is there exactly when the
   * lower-cased model name has no occurrence of "flash", carrying the ratio verbatim
   * and the size upper-cased; the search tool is there exactly when grounding is "true".
   */
  lemma ConfigFields(prompt: string, aspectRatio: string, imageSize: string, model: string,
                     refs: seq<Reference>, grounding: string, encode: seq<byte> -> string)
    requires RequestFor(prompt, aspectRatio, imageSize, model, refs, grounding, encode).Success?
    ensures var r := RequestFor(prompt, aspectRatio, imageSize, model, refs, grounding, encode).value;
      && r.generationConfig.responseModalities == ["TEXT", "IMAGE"]
      && (r.generationConfig.imageConfig.Some? <==> !exists i :: OccursAt(Lower(model), "flash", i))
      && (r.generationConfig.imageConfig.Some? ==>
            r.generationConfig.imageConfig.value == ImageConfig(aspectRatio, Upper(imageSize)))
      && (r.tools.Some? <==> grounding == "true")
      && (r.tools.Some? ==> r.tools.value == [GoogleSearch])
  {
    ContainsIff(Lower(model), "flash");
  }

  /** No occurrence of `t` is possible when its first character does not occur in `s`. */
  lemma {:induction false} NotContainsFirst(s: string, t: string)
    requires t != [] && t[0] !in s
    ensures !Contains(s, t)
    decreases |s|
  {
    if s != [] {
      assert s[0] in s;
      assert forall c :: c in s[1..] ==> c in s;
      NotContainsFirst(s[1..], t);
    }
  }

  /** The documented Flash model gets no image configuration. */
  lemma FlashModelIsFlash()
    ensures IsFlash("gemini-2.5-flash-image")
  {
    var flash := "gemini-2.5-flash-image";
    assert Lower(flash) == flash;
    assert OccursAt(flash, "flash", 11);
    ContainsIff(flash, "flash");
  }

  /** The default Pro model does get one. */
  lemma ProModelIsNotFlash()
    ensures !IsFlash("gemini-3-pro-image-preview")
  {
    var pro := "gemini-3-pro-image-preview";
    assert Lower(pro) == pro;
    NotContainsFirst(pro, "flash");
  }
}
