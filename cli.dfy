// The part of `main` that decides anything: size normalisation, and the order in
// which it checks the size, loads the key, builds the request, calls the API,
// extracts the image and checks the written file. Argument parsing and every
// banner are left out; the API call is a parameter.

module Cli {
  import opened Wrappers
  import opened PyStr
  import opened ApiKey
  import opened Request
  import opened Extract

  /** `VALID_SIZES` */
  const ValidSizes: seq<string> := ["1K", "2K", "4K"]

  /** `args.size.upper()`, kept when it is one of the valid sizes; the error carries the upper-cased text it reports. */
  function NormalizeSize(size: string): Result<string, string>
  {
    var upper := Upper(size);
    if upper in ValidSizes then Success(upper) else Failure(upper)
  }

  lemma UpperCharIs(c: char, d: char)
    requires !('a' <= d <= 'z')
    ensures UpperChar(c) == d <==> c == d || ('A' <= d <= 'Z' && c == (d as int + 32) as char)
  {
  }

  /** A two-character text upper-cases to `[d, 'K']` exactly when it is `d` followed by either case of `k`. */
  lemma UpperTwo(size: string, d: char)
    requires '0' <= d <= '9'
    ensures Upper(size) == [d, 'K'] <==> size == [d, 'K'] || size == [d, 'k']
  {
    if |size| == 2 {
      UpperCharIs(size[0], d);
      UpperCharIs(size[1], 'K');
      if Upper(size) == [d, 'K'] {
        assert UpperChar(size[0]) == Upper(size)[0];
        assert UpperChar(size[1]) == Upper(size)[1];
      }
    } else {
      assert |Upper(size)| != 2;
    }
  }

  /**
   * The size is accepted exactly when it is 1K, 2K or 4K in either case, and the
   * accepted value is always the upper-case spelling; a rejection reports the upper-cased input.
   */
  lemma SizeAcceptedIff(size: string)
    ensures NormalizeSize(size).Success? <==> size in ["1K", "1k", "2K", "2k", "4K", "4k"]
    ensures NormalizeSize(size).Success? ==> NormalizeSize(size).value == Upper(size) && NormalizeSize(size).value in ValidSizes
    ensures NormalizeSize(size).Failure? ==> NormalizeSize(size).error == Upper(size)
  {
    UpperTwo(size, '1');
    UpperTwo(size, '2');
    UpperTwo(size, '4');
  }

  /** An accepted size is unchanged by normalising it again, as `build_request` does when it upper-cases it once more. */
  lemma NormalizedSizeIsFixed(size: string)
    requires NormalizeSize(size).Success?
    ensures Upper(NormalizeSize(size).value) == NormalizeSize(size).value
    ensures NormalizeSize(NormalizeSize(size).value) == NormalizeSize(size)
  {
    SizeAcceptedIff(size);
  }

  /** The parsed command line, as far as the core uses it; each reference is already resolved against the file system. */
  datatype Invocation = Invocation(
    prompt: string,
    aspectRatio: string,
    size: string,
    model: string,
    references: seq<Reference>,
    grounding: string)

  /** How `call_gemini_api` fails: an HTTP error status with its body, or any other exception. */
  datatype ApiError = HttpError(code: int, body: string) | CallFailed(message: string)

  /** Every way `main` stops with exit status 1, or with an uncaught exception in the undecodable case. */
  datatype RunError =
    | InvalidSize(size: string)
    | KeyNotFound
    | BuildFailed(reason: BuildError)
    | ApiFailed(cause: ApiError)
    | NoImage(texts: seq<string>)
    | DecodeCrashed(data: string)
    | EmptyOutput

  /** The bytes left in the output file when `main` succeeds, or why it stops, stage by stage in `main`'s order. */
  function Run(inv: Invocation, keys: KeySources, api: (string, string, Request) -> Result<ResponseData, ApiError>,
               encode: seq<byte> -> string, decode: string -> Option<seq<byte>>): Result<seq<byte>, RunError>
  {
    match NormalizeSize(inv.size)
    case Failure(shown) => Failure(InvalidSize(shown))
    case Success(size) =>
      match ResolveKey(keys)
      case None => Failure(KeyNotFound)
      case Some(key) =>
        match RequestFor(inv.prompt, inv.aspectRatio, size, inv.model, inv.references, inv.grounding, encode)
        case Failure(e) => Failure(BuildFailed(e))
        case Success(request) =>
          match api(key, inv.model, request)
          case Failure(e) => Failure(ApiFailed(e))
          case Success(response) =>
            match Extraction(response, decode)
            case NoImageFound(texts) => Failure(NoImage(texts))
            case UndecodableImage(data) => Failure(DecodeCrashed(data))
            case Saved(bytes, _) => if |bytes| > 0 then Success(bytes) else Failure(EmptyOutput)
  }

  /** `main` with the three loops run as methods. */
  method Generate(inv: Invocation, keys: KeySources, api: (string, string, Request) -> Result<ResponseData, ApiError>,
                  encode: seq<byte> -> string, decode: string -> Option<seq<byte>>)
    returns (result: Result<seq<byte>, RunError>)
    ensures result == Run(inv, keys, api, encode, decode)
  {
    var size := NormalizeSize(inv.size);
    if size.Failure? {
      return Failure(InvalidSize(size.error));
    }
    var key := LoadApiKey(keys);
    if key.None? {
      return Failure(KeyNotFound);
    }
    var request := BuildRequest(inv.prompt, inv.aspectRatio, size.value, inv.model, inv.references, inv.grounding, encode);
    if request.Failure? {
      return Failure(BuildFailed(request.error));
    }
    var response := api(key.value, inv.model, request.value);
    if response.Failure? {
      return Failure(ApiFailed(response.error));
    }
    var outcome := ExtractAndSaveImage(response.value, decode);
    match outcome
    case NoImageFound(texts) => return Failure(NoImage(texts));
    case UndecodableImage(data) => return Failure(DecodeCrashed(data));
    case Saved(bytes, _) =>
      if |bytes| > 0 {
        return Success(bytes);
      }
      return Failure(EmptyOutput);
  }

  /**
   * The size, the key and the references are all checked before the API is
   * called: when any of them fails, the outcome is the same whatever the API would answer.
   */
  lemma ValidationPrecedesApiCall(inv: Invocation, keys: KeySources,
                                  api1: (string, string, Request) -> Result<ResponseData, ApiError>,
                                  api2: (string, string, Request) -> Result<ResponseData, ApiError>,
                                  encode: seq<byte> -> string, decode: string -> Option<seq<byte>>)
    requires NormalizeSize(inv.size).Failure? || ResolveKey(keys).None? ||
             RequestFor(inv.prompt, inv.aspectRatio, Upper(inv.size), inv.model, inv.references, inv.grounding, encode).Failure?
    ensures Run(inv, keys, api1, encode, decode) == Run(inv, keys, api2, encode, decode)
    ensures Run(inv, keys, api1, encode, decode).Failure?
  {
  }

  /** An invalid size is reported before the key is even looked up. */
  lemma SizeCheckedFirst(inv: Invocation, keys1: KeySources, keys2: KeySources,
                         api: (string, string, Request) -> Result<ResponseData, ApiError>,
                         encode: seq<byte> -> string, decode: string -> Option<seq<byte>>)
    requires Upper(inv.size) !in ValidSizes
    ensures Run(inv, keys1, api, encode, decode) == Run(inv, keys2, api, encode, decode) == Failure(InvalidSize(Upper(inv.size)))
  {
  }

  /**
   * `main` succeeds exactly when every stage does and the first image of the
   * response decodes to non-empty bytes, which are then what the output file holds.
   */
  lemma RunSucceedsIff(inv: Invocation, keys: KeySources, api: (string, string, Request) -> Result<ResponseData, ApiError>,
                       encode: seq<byte> -> string, decode: string -> Option<seq<byte>>)
    ensures Run(inv, keys, api, encode, decode).Success? <==>
      && NormalizeSize(inv.size).Success?
      && ResolveKey(keys).Some?
      && RequestFor(inv.prompt, inv.aspectRatio, Upper(inv.size), inv.model, inv.references, inv.grounding, encode).Success?
      && var request := RequestFor(inv.prompt, inv.aspectRatio, Upper(inv.size), inv.model, inv.references, inv.grounding, encode).value;
         && api(ResolveKey(keys).value, inv.model, request).Success?
         && var written := Written(Extraction(api(ResolveKey(keys).value, inv.model, request).value, decode));
            written.Some? && |written.value| > 0
    ensures Run(inv, keys, api, encode, decode).Success? ==>
      var request := RequestFor(inv.prompt, inv.aspectRatio, Upper(inv.size), inv.model, inv.references, inv.grounding, encode).value;
      Written(Extraction(api(ResolveKey(keys).value, inv.model, request).value, decode)) == Some(Run(inv, keys, api, encode, decode).value)
  {
  }
}
