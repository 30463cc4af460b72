/**
 * Extraction of the generated image and the model's commentary from a
 * generateContent response. The response is a JSON object or a JSON array of such
 * objects; `candidates`, `content` and `parts` may be absent. Base64 decoding is a
 * parameter `decode`, `None` where Python's decoder raises.
 */
module Extract {
  import opened Wrappers
  import opened PyStr
  import Request

  type byte = Request.byte

  /** A part's `inlineData` object; only its `data` field is read. */
  datatype Blob = Blob(mimeType: Option<string>, data: string)

  /** A content part. `thought` is the truthiness of `part.get("thought")`: false when absent. */
  datatype ResponsePart = ResponsePart(text: Option<string>, thought: bool, inlineData: Option<Blob>)

  datatype CandidateContent = CandidateContent(parts: Option<seq<ResponsePart>>)

  datatype Candidate = Candidate(content: Option<CandidateContent>)

  datatype Item = Item(candidates: Option<seq<Candidate>>)

  datatype ResponseData = Object(item: Item) | Array(items: seq<Item>)

  /**
   * How a run of the extractor ends: the image was written (with the texts collected),
   * no part carried an image, or the first image's data could not be decoded.
   */
  datatype ExtractOutcome =
    | Saved(image: seq<byte>, texts: seq<string>)
    | NoImageFound(texts: seq<string>)
    | UndecodableImage(data: string)

  /**
   * The contents of the output file afterwards. The file is opened for writing before
   * the data is decoded, so a decoding failure leaves it empty.
   */
  function Written(outcome: ExtractOutcome): Option<seq<byte>>
  {
    match outcome
    case Saved(image, _) => Some(image)
    case NoImageFound(_) => None
    case UndecodableImage(_) => Some([])
  }

  /** A lone object is treated as a one-element array. */
  function Items(response: ResponseData): seq<Item>
  {
    match response
    case Object(item) => [item]
    case Array(items) => items
  }

  function CandidatesOf(item: Item): seq<Candidate>
  {
    match item.candidates
    case None => []
    case Some(cs) => cs
  }

  function PartsOf(candidate: Candidate): seq<ResponsePart>
  {
    match candidate.content
    case None => []
    case Some(content) =>
      match content.parts
      case None => []
      case Some(ps) => ps
  }

  /** Every part of every candidate of the given candidates, in order. */
  function CandidateParts(cs: seq<Candidate>): seq<ResponsePart>
  {
    if cs == [] then [] else PartsOf(cs[0]) + CandidateParts(cs[1..])
  }

  /** Every part of every candidate of every item, in items -> candidates -> parts order. */
  function AllParts(items: seq<Item>): seq<ResponsePart>
  {
    if items == [] then [] else CandidateParts(CandidatesOf(items[0])) + AllParts(items[1..])
  }

  function Traversal(response: ResponseData): seq<ResponsePart>
  {
    AllParts(Items(response))
  }

  /** A part's text is shown when it has a `text` field and is not a thought. */
  predicate Visible(p: ResponsePart)
  {
    p.text.Some? && !p.thought
  }

  /** The texts of the visible parts, in order. */
  function VisibleTexts(ps: seq<ResponsePart>): seq<string>
  {
    if ps == [] then []
    else (if Visible(ps[0]) then [ps[0].text.value] else []) + VisibleTexts(ps[1..])
  }

  /** The `data` of the first part that carries `inlineData`. */
  function FirstImage(ps: seq<ResponsePart>): Option<string>
  {
    if ps == [] then None
    else if ps[0].inlineData.Some? then Some(ps[0].inlineData.value.data)
    else FirstImage(ps[1..])
  }

  /** There is a first image exactly when some part carries `inlineData`, and it is the earliest such part's data. */
  lemma {:induction false} FirstImageShape(ps: seq<ResponsePart>)
    ensures FirstImage(ps).None? <==> forall i :: 0 <= i < |ps| ==> ps[i].inlineData.None?
    ensures FirstImage(ps).Some? ==>
      exists i :: 0 <= i < |ps| && ps[i].inlineData.Some? && ps[i].inlineData.value.data == FirstImage(ps).value &&
                  forall j :: 0 <= j < i ==> ps[j].inlineData.None?
  {
    if ps != [] && ps[0].inlineData.None? {
      FirstImageShape(ps[1..]);
      assert forall i :: 1 <= i < |ps| ==> ps[i] == ps[1..][i - 1];
      if FirstImage(ps).Some? {
        var i :| 0 <= i < |ps[1..]| && ps[1..][i].inlineData.Some? && ps[1..][i].inlineData.value.data == FirstImage(ps).value &&
                 forall j :: 0 <= j < i ==> ps[1..][j].inlineData.None?;
        assert ps[i + 1] == ps[1..][i];
      }
    }
  }

  /** What `extract_and_save_image` does with a response, stated on the flattened traversal. */
  function Extraction(response: ResponseData, decode: string -> Option<seq<byte>>): ExtractOutcome
  {
    var ps := Traversal(response);
    var texts := VisibleTexts(ps);
    match FirstImage(ps)
    case None => NoImageFound(texts)
    case Some(data) =>
      match decode(data)
      case None => UndecodableImage(data)
      case Some(bytes) => Saved(bytes, texts)
  }

  /** The printed preview: the first 200 characters of the texts joined by single spaces, when there are any. */
  function Preview(texts: seq<string>): (r: Option<string>)
    ensures r.None? <==> texts == []
    ensures r.Some? ==> StartsWith(Join(texts, " "), r.value)
    ensures r.Some? ==> |r.value| == if |Join(texts, " ")| <= 200 then |Join(texts, " ")| else 200
    ensures r.Some? && |Join(texts, " ")| <= 200 ==> r.value == Join(texts, " ")
  {
    if texts == [] then None else Some(Take(Join(texts, " "), 200))
  }

  lemma {:induction false} VisibleTextsAppend(a: seq<ResponsePart>, b: seq<ResponsePart>)
    ensures VisibleTexts(a + b) == VisibleTexts(a) + VisibleTexts(b)
  {
    if a != [] {
      assert (a + b)[1..] == a[1..] + b;
      VisibleTextsAppend(a[1..], b);
    } else {
      assert a + b == b;
    }
  }

  lemma {:induction false} FirstImageAppend(a: seq<ResponsePart>, b: seq<ResponsePart>)
    ensures FirstImage(a + b) == if FirstImage(a).Some? then FirstImage(a) else FirstImage(b)
  {
    if a != [] {
      assert (a + b)[1..] == a[1..] + b;
      if a[0].inlineData.None? {
        FirstImageAppend(a[1..], b);
      }
    } else {
      assert a + b == b;
    }
  }

  lemma {:induction false} AllPartsAppend(a: seq<Item>, b: seq<Item>)
    ensures AllParts(a + b) == AllParts(a) + AllParts(b)
  {
    if a != [] {
      assert (a + b)[1..] == a[1..] + b;
      AllPartsAppend(a[1..], b);
    } else {
      assert a + b == b;
    }
  }

  /** The extractor's state after the parts `seen`: their visible texts, and the decoded first image if any. */
  ghost predicate Consistent(seen: seq<ResponsePart>, texts: seq<string>, image: Option<seq<byte>>,
                             decode: string -> Option<seq<byte>>)
  {
    && texts == VisibleTexts(seen)
    && (image.Some? <==> FirstImage(seen).Some?)
    && (image.Some? ==> decode(FirstImage(seen).value) == image)
  }

  /** Handling one more part keeps the state consistent, unless that part is the first image and does not decode. */
  lemma StepConsistent(seen: seq<ResponsePart>, part: ResponsePart, texts: seq<string>, image: Option<seq<byte>>,
                       decode: string -> Option<seq<byte>>)
    requires Consistent(seen, texts, image, decode)
    requires part.inlineData.Some? && image.None? ==> decode(part.inlineData.value.data).Some?
    ensures Consistent(seen + [part],
                       texts + (if Visible(part) then [part.text.value] else []),
                       if part.inlineData.Some? && image.None? then decode(part.inlineData.value.data) else image,
                       decode)
  {
    VisibleTextsAppend(seen, [part]);
    FirstImageAppend(seen, [part]);
  }

  lemma {:induction false} CandidatePartsAppend(a: seq<Candidate>, b: seq<Candidate>)
    ensures CandidateParts(a + b) == CandidateParts(a) + CandidateParts(b)
  {
    if a != [] {
      assert (a + b)[1..] == a[1..] + b;
      CandidatePartsAppend(a[1..], b);
    } else {
      assert a + b == b;
    }
  }

  lemma {:induction false} CandidatePartsSnoc(cs: seq<Candidate>, j: nat)
    requires j < |cs|
    ensures CandidateParts(cs[..j + 1]) == CandidateParts(cs[..j]) + PartsOf(cs[j])
  {
    CandidatePartsAppend(cs[..j], [cs[j]]);
    assert cs[..j] + [cs[j]] == cs[..j + 1];
    assert CandidateParts([cs[j]]) == PartsOf(cs[j]) + [];
  }

  lemma {:induction false} CandidatePartsSplit(cs: seq<Candidate>, j: nat)
    requires j <= |cs|
    ensures CandidateParts(cs) == CandidateParts(cs[..j]) + CandidateParts(cs[j..])
  {
    var a, b := cs[..j], cs[j..];
    assert a + b == cs;
    CandidatePartsAppend(a, b);
  }

  lemma {:induction false} AllPartsSnoc(items: seq<Item>, i: nat)
    requires i < |items|
    ensures AllParts(items[..i + 1]) == AllParts(items[..i]) + CandidateParts(CandidatesOf(items[i]))
  {
    AllPartsAppend(items[..i], [items[i]]);
    assert items[..i] + [items[i]] == items[..i + 1];
    assert AllParts([items[i]]) == CandidateParts(CandidatesOf(items[i])) + [];
  }

  lemma {:induction false} AllPartsSplit(items: seq<Item>, i: nat)
    requires i <= |items|
    ensures AllParts(items) == AllParts(items[..i]) + AllParts(items[i..])
  {
    var a, b := items[..i], items[i..];
    assert a + b == items;
    AllPartsAppend(a, b);
  }

  /** A first image among the parts seen so far stays the first image, whatever follows. */
  lemma FirstImageKept(seen: seq<ResponsePart>, rest: seq<ResponsePart>)
    requires FirstImage(seen).Some?
    ensures FirstImage(seen + rest) == FirstImage(seen)
  {
    FirstImageAppend(seen, rest);
  }

  /**
   * The loop over one candidate's parts. It starts in the state reached after `seen`
   * and stops early, reporting the data, when the first image does not decode.
   */
  method ScanParts(parts: seq<ResponsePart>, ghost seen: seq<ResponsePart>, texts0: seq<string>,
                   image0: Option<seq<byte>>, decode: string -> Option<seq<byte>>)
    returns (texts: seq<string>, image: Option<seq<byte>>, undecodable: Option<string>)
    requires Consistent(seen, texts0, image0, decode)
    ensures undecodable.None? ==> Consistent(seen + parts, texts, image, decode)
    ensures undecodable.Some? ==> FirstImage(seen + parts) == undecodable && decode(undecodable.value).None?
  {
    texts, image := texts0, image0;
    assert seen + parts[..0] == seen;
    for k := 0 to |parts|
      invariant Consistent(seen + parts[..k], texts, image, decode)
    {
      var part := parts[k];
      ghost var before := seen + parts[..k];
      assert before + [part] == seen + parts[..k + 1];
      if part.inlineData.Some? && image.None? && decode(part.inlineData.value.data).None? {
        FirstImageAppend(before, [part]);
        assert seen + parts == (before + [part]) + parts[k + 1..];
        FirstImageKept(before + [part], parts[k + 1..]);
        return texts, image, Some(part.inlineData.value.data);
      }
      StepConsistent(before, part, texts, image, decode);
      // a visible text extends the texts of the parts seen
      if part.text.Some? && !part.thought {
        texts := texts + [part.text.value];
      }
      // only the first image part of the traversal is decoded
      if part.inlineData.Some? && image.None? {
        image := decode(part.inlineData.value.data);
      }
    }
    assert parts[..|parts|] == parts;
    return texts, image, None;
  }

  /** The loop over one item's candidates. */
  method ScanCandidates(candidates: seq<Candidate>, ghost seen: seq<ResponsePart>, texts0: seq<string>,
                        image0: Option<seq<byte>>, decode: string -> Option<seq<byte>>)
    returns (texts: seq<string>, image: Option<seq<byte>>, undecodable: Option<string>)
    requires Consistent(seen, texts0, image0, decode)
    ensures undecodable.None? ==> Consistent(seen + CandidateParts(candidates), texts, image, decode)
    ensures undecodable.Some? ==> FirstImage(seen + CandidateParts(candidates)) == undecodable && decode(undecodable.value).None?
  {
    texts, image, undecodable := texts0, image0, None;
    assert seen + CandidateParts(candidates[..0]) == seen;
    for j := 0 to |candidates|
      invariant Consistent(seen + CandidateParts(candidates[..j]), texts, image, decode)
      invariant undecodable.None?
    {
      ghost var before := seen + CandidateParts(candidates[..j]);
      var parts := PartsOf(candidates[j]);
      CandidatePartsSnoc(candidates, j);
      assert before + parts == seen + CandidateParts(candidates[..j + 1]);
      texts, image, undecodable := ScanParts(parts, before, texts, image, decode);
      if undecodable.Some? {
        CandidatePartsSplit(candidates, j + 1);
        assert seen + CandidateParts(candidates) == (before + parts) + CandidateParts(candidates[j + 1..]);
        FirstImageKept(before + parts, CandidateParts(candidates[j + 1..]));
        return;
      }
    }
    assert candidates[..|candidates|] == candidates;
    assert seen + CandidateParts(candidates[..|candidates|]) == seen + CandidateParts(candidates);
  }

  /**
   * Walks items -> candidates -> parts, collecting visible texts and writing the first
   * image it meets; an `image` already present plays the part of `image_saved`.
   */
  method ExtractAndSaveImage(response: ResponseData, decode: string -> Option<seq<byte>>)
    returns (outcome: ExtractOutcome)
    ensures outcome == Extraction(response, decode)
  {
    var items := if response.Array? then response.items else [response.item];
    var image: Option<seq<byte>> := None;
    var texts: seq<string> := [];
    var undecodable: Option<string>;
    for i := 0 to |items|
      invariant Consistent(AllParts(items[..i]), texts, image, decode)
    {
      ghost var before := AllParts(items[..i]);
      var candidates := CandidatesOf(items[i]);
      AllPartsSnoc(items, i);
      assert before + CandidateParts(candidates) == AllParts(items[..i + 1]);
      texts, image, undecodable := ScanCandidates(candidates, before, texts, image, decode);
      if undecodable.Some? {
        AllPartsSplit(items, i + 1);
        FirstImageKept(AllParts(items[..i + 1]), AllParts(items[i + 1..]));
        assert Traversal(response) == AllParts(items);
        return UndecodableImage(undecodable.value);
      }
    }
    assert items[..|items|] == items;
    assert Traversal(response) == AllParts(items);
    if image.None? {
      return NoImageFound(texts);
    }
    return Saved(image.value, texts);
  }

  /** A single response object is extracted exactly as the array holding only it. */
  lemma ObjectIsOneElementArray(item: Item, decode: string -> Option<seq<byte>>)
    ensures Extraction(Object(item), decode) == Extraction(Array([item]), decode)
  {
  }

  /**
   * The first part carrying `inlineData` decides the output: whatever image parts
   * come after it, the bytes written are the decoding of its data.
   */
  lemma FirstImageWins(pre: seq<ResponsePart>, p: ResponsePart, post: seq<ResponsePart>)
    requires forall i :: 0 <= i < |pre| ==> pre[i].inlineData.None?
    requires p.inlineData.Some?
    ensures FirstImage(pre + [p] + post) == Some(p.inlineData.value.data)
  {
    FirstImageShape(pre);
    FirstImageAppend(pre, [p] + post);
    assert pre + [p] + post == pre + ([p] + post);
  }

  /** The bytes written, if any: the decoding of the first image, or nothing left in a file opened for it when decoding fails. */
  function ImageWritten(first: Option<string>, decode: string -> Option<seq<byte>>): Option<seq<byte>>
  {
    match first
    case None => None
    case Some(data) => if decode(data).Some? then decode(data) else Some([])
  }

  /** Only the first image decides what reaches the output file; texts never do. */
  lemma WrittenByFirstImage(response: ResponseData, decode: string -> Option<seq<byte>>)
    ensures Written(Extraction(response, decode)) == ImageWritten(FirstImage(Traversal(response)), decode)
  {
  }

  /** Once the items seen hold an image, appending items leaves the first image as it is. */
  lemma FirstImageOfMoreItems(items: seq<Item>, more: seq<Item>)
    requires FirstImage(AllParts(items)).Some?
    ensures FirstImage(AllParts(items + more)) == FirstImage(AllParts(items))
  {
    AllPartsAppend(items, more);
    FirstImageKept(AllParts(items), AllParts(more));
  }

  /** Appending more items to a response that already holds an image never changes what is written. */
  lemma LaterItemsIgnored(items: seq<Item>, more: seq<Item>, decode: string -> Option<seq<byte>>)
    requires FirstImage(AllParts(items)).Some?
    ensures Written(Extraction(Array(items + more), decode)) == Written(Extraction(Array(items), decode))
  {
    FirstImageOfMoreItems(items, more);
    WrittenByFirstImage(Array(items + more), decode);
    WrittenByFirstImage(Array(items), decode);
  }

  /** Without any `inlineData` part the extraction fails, even when text was collected. */
  lemma NoImageMeansFailure(response: ResponseData, decode: string -> Option<seq<byte>>)
    requires forall i :: 0 <= i < |Traversal(response)| ==> Traversal(response)[i].inlineData.None?
    ensures Extraction(response, decode) == NoImageFound(VisibleTexts(Traversal(response)))
    ensures Written(Extraction(response, decode)) == None
  {
    FirstImageShape(Traversal(response));
  }

  /** Thoughts contribute no text; a response made only of thoughts fails with nothing to preview. */
  lemma {:induction false} ThoughtsAreHidden(ps: seq<ResponsePart>)
    requires forall i :: 0 <= i < |ps| ==> ps[i].thought && ps[i].inlineData.None?
    ensures VisibleTexts(ps) == []
    ensures FirstImage(ps) == None
  {
    if ps != [] {
      assert forall i :: 0 <= i < |ps[1..]| ==> ps[1..][i] == ps[i + 1];
      ThoughtsAreHidden(ps[1..]);
    }
  }

  /** Missing `candidates`, `content` or `parts` contribute no parts at all. */
  lemma MissingFieldsAreEmpty()
    ensures AllParts([Item(None)]) == []
    ensures CandidateParts([Candidate(None), Candidate(Some(CandidateContent(None)))]) == []
  {
  }
}
