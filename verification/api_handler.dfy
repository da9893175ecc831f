/** The request logic of the two handlers: how `WeatherHandler` pulls a
    city out of a query, and how `GeminiHandler` turns a prompt and an
    optional file into at most one call to the AI provider.

    Everything outside the process is a parameter: the file system is a
    function from a path to what it holds (its guessed MIME type, and what
    opening it as an image or reading it as UTF-8 text would give), and
    the provider is a function from a request to its text or the message of
    the exception it raised. */
module ApiHandler {
  import opened Wrappers
  import opened Text
  import ContextManager

  // ---------------------------------------------------------------------
  // WeatherHandler._extract_city

  /** The query's words: lower-cased, then split on whitespace. */
  function Words(query: string): (ws: seq<string>)
    ensures AllTokens(ws)
    ensures forall i :: 0 <= i < |ws| ==> NoUpper(ws[i])
  {
    SplitNoUpper(Lower(query));
    Split(Lower(query))
  }

  /** Any whitespace character in a query separates the words before it
      from the words after it. */
  lemma WordsAtSpace(x: string, c: char, y: string)
    requires IsSpace(c)
    ensures Words(x + [c] + y) == Words(x) + Words(y)
  {
    LowerAtSpace(x, c, y);
    SplitAtSpace(Lower(x), c, Lower(y));
  }

  /** `_extract_city`: the words after the first "in", joined by single
      spaces; with no "in", the last word (`words[-1:]`), which is nothing
      for a query without words. */
  function ExtractCity(query: string): (city: string)
    ensures NoUpper(city)
    ensures SingleSpaced(city)
  {
    var words := Words(query);
    var picked :=
      match IndexOf(words, "in")
      case Some(i) => words[i + 1..]
      case None => if words == [] then [] else [words[|words| - 1]];
    JoinNoUpper(picked);
    JoinSingleSpaced(picked);
    Join(picked)
  }

  /** With an "in" among the words, the city is exactly the words after the
      first one, so nothing when that "in" is the last word. */
  lemma ExtractCityAfterIn(query: string, i: nat)
    requires i < |Words(query)| && Words(query)[i] == "in"
    requires "in" !in Words(query)[..i]
    ensures Split(ExtractCity(query)) == Words(query)[i + 1..]
    ensures i == |Words(query)| - 1 ==> ExtractCity(query) == ""
  {
    var words := Words(query);
    assert IndexOf(words, "in") == Some(i);
    SplitJoin(words[i + 1..]);
  }

  /** Without an "in", the city is the last word, or empty when the query
      has no words at all. */
  lemma ExtractCityWithoutIn(query: string)
    requires "in" !in Words(query)
    ensures Words(query) == [] ==> ExtractCity(query) == ""
    ensures Words(query) != [] ==> ExtractCity(query) == Words(query)[|Words(query)| - 1]
  {
  }

  /** The last-word fallback, `words[-1:]`, splits back into that word. */
  lemma LastWord(words: seq<string>)
    requires words != [] && AllTokens(words)
    ensures Split(Join([words[|words| - 1]])) == words[|words| - 1..]
  {
    SplitJoin([words[|words| - 1]]);
  }

  /** Whatever the query, the city's words are the query's last words, in
      order and unchanged. */
  lemma ExtractCityIsTail(query: string)
    ensures |Split(ExtractCity(query))| <= |Words(query)|
    ensures Split(ExtractCity(query))
         == Words(query)[|Words(query)| - |Split(ExtractCity(query))|..]
  {
    var words := Words(query);
    var idx := IndexOf(words, "in");
    if idx.Some? {
      ExtractCityAfterIn(query, idx.value);
    } else {
      ExtractCityWithoutIn(query);
      if words != [] {
        LastWord(words);
      }
    }
  }

  /** Which whitespace character separates two parts of a query (a tab, a
      newline, a no-break space) makes no difference to the city. */
  lemma ExtractCitySeparator(x: string, c: char, y: string)
    requires IsSpace(c)
    ensures ExtractCity(x + [c] + y) == ExtractCity(x + " " + y)
  {
    WordsAtSpace(x, c, y);
    WordsAtSpace(x, ' ', y);
  }

  /** The words of a query that is already lower case and single-spaced
      are the tokens it was joined from. */
  lemma WordsOfJoin(query: string, ws: seq<string>)
    requires AllTokens(ws) && query == Join(ws)
    requires forall i :: 0 <= i < |ws| ==> NoUpper(ws[i])
    ensures Words(query) == ws
  {
    JoinNoUpper(ws);
    LowerOfLower(query);
    SplitJoin(ws);
  }

  /** A marker query "<word> in <a> <b>": the two words after "in". */
  lemma ExtractCityMarker(w: string, a: string, b: string)
    requires IsLowerWord(w) && IsLowerWord(a) && IsLowerWord(b) && w != "in"
    ensures ExtractCity(Join([w, "in", a, b])) == Join([a, b])
  {
    var ws := [w, "in", a, b];
    var query := Join(ws);
    LowerWord(w);
    LowerWord("in");
    LowerWord(a);
    LowerWord(b);
    WordsOfJoin(query, ws);
    ExtractCityAfterIn(query, 1);
    assert ws[2..] == [a, b];
    JoinSplit(ExtractCity(query));
  }

  /** A query without "in", "<x> <y> <z>": its last word. */
  lemma ExtractCityFallback(x: string, y: string, z: string)
    requires IsLowerWord(x) && IsLowerWord(y) && IsLowerWord(z)
    requires "in" !in [x, y, z]
    ensures ExtractCity(Join([x, y, z])) == z
  {
    var ws := [x, y, z];
    LowerWord(x);
    LowerWord(y);
    LowerWord(z);
    WordsOfJoin(Join(ws), ws);
    ExtractCityWithoutIn(Join(ws));
  }

  /** "weather in new york" names "new york". */
  lemma ExtractCityExampleMarker(query: string)
    requires query == "weather in new york"
    ensures ExtractCity(query) == "new york"
  {
    assert Join(["in", "new", "york"]) == "in new york";
    assert Join(["weather", "in", "new", "york"]) == query;
    assert Join(["new", "york"]) == "new york";
    ExtractCityMarker("weather", "new", "york");
  }

  /** "random text tokyo" has no "in" and names its last word. */
  lemma ExtractCityExampleFallback(query: string)
    requires query == "random text tokyo"
    ensures ExtractCity(query) == "tokyo"
  {
    assert Join(["random", "text", "tokyo"]) == query;
    ExtractCityFallback("random", "text", "tokyo");
  }

  /** "weather in" ends in its marker and names no city. */
  lemma ExtractCityExampleTrailingIn(query: string)
    requires query == "weather in"
    ensures ExtractCity(query) == ""
  {
    var ws := ["weather", "in"];
    assert Join(ws) == query;
    LowerWord("weather");
    LowerWord("in");
    WordsOfJoin(query, ws);
    ExtractCityAfterIn(query, 1);
  }

  // ---------------------------------------------------------------------
  // GeminiHandler._process_file_input

  /** The three ways a file is treated, decided by its MIME type. */
  datatype FileKind = ImageFile | TextFile | Unsupported

  /** The MIME-prefix test: no (or an empty) type is unsupported, `image/`
      is an image, `text/` and `application/` are read as text, anything
      else is unsupported. */
  function ClassifyMime(mime: Option<string>): (k: FileKind)
    ensures mime.None? ==> k == Unsupported
    ensures k == ImageFile <==> mime.Some? && StartsWith(mime.value, "image/")
    ensures k == TextFile <==>
      mime.Some? && (StartsWith(mime.value, "text/") || StartsWith(mime.value, "application/"))
  {
    if mime.None? || mime.value == "" then Unsupported
    else if StartsWith(mime.value, "image/") then
      assert mime.value[0] == "image/"[0];
      ImageFile
    else if StartsWith(mime.value, "text/") || StartsWith(mime.value, "application/") then TextFile
    else Unsupported
  }

  /** A MIME type whose top-level type has no slash starts with `p/`
      exactly when its top-level type is `p`. */
  lemma TopLevelPrefix(top: string, sub: string, p: string)
    requires '/' !in top && '/' !in p
    ensures StartsWith(top + "/" + sub, p + "/") <==> top == p
  {
    var m := top + "/" + sub;
    var q := p + "/";
    if top == p {
      assert m[..|q|] == q;
    }
    if StartsWith(m, q) {
      assert m[..|q|] == q;
      if |top| < |p| {
        PrefixCharAt(m, q, |top|);
        assert false;
      } else if |top| > |p| {
        PrefixCharAt(m, q, |p|);
        assert false;
      } else {
        forall k | 0 <= k < |p|
          ensures top[k] == p[k]
        {
          assert m[k] == top[k] && q[k] == p[k];
        }
      }
    }
  }

  /** Classification looks only at the top-level type before the slash. */
  lemma ClassifyByTopLevelType(top: string, sub: string)
    requires '/' !in top
    ensures ClassifyMime(Some(top + "/" + sub)) ==
      if top == "image" then ImageFile
      else if top == "text" || top == "application" then TextFile
      else Unsupported
  {
    TopLevelPrefix(top, sub, "image");
    TopLevelPrefix(top, sub, "text");
    TopLevelPrefix(top, sub, "application");
  }

  /** A decoded image, as the imaging library would return it. */
  datatype Picture = Picture(data: seq<bv8>)

  /** What the file system holds at one path: the MIME type guessed from the
      name, and the outcome of opening it as an image and of reading it as
      UTF-8 text (a value, or the message of the exception raised). */
  datatype FileOnDisk = FileOnDisk(
    mime: Option<string>,
    asImage: Result<Picture, string>,
    asText: Result<string, string>)

  /** A file's contribution to a request. */
  datatype Content = ImageContent(picture: Picture) | TextContent(text: string)

  /** `_process_file_input`: `Success(None)` for an unsupported type, the
      opened image or the read text otherwise, and `Failure` with the
      exception's message when opening or reading raises. */
  function ProcessFileInput(file: FileOnDisk): (r: Result<Option<Content>, string>)
    ensures r == Success(None) <==> ClassifyMime(file.mime) == Unsupported
    ensures r.Success? && r.value.Some? && r.value.value.ImageContent? ==>
      ClassifyMime(file.mime) == ImageFile && file.asImage == Success(r.value.value.picture)
    ensures r.Success? && r.value.Some? && r.value.value.TextContent? ==>
      ClassifyMime(file.mime) == TextFile && file.asText == Success(r.value.value.text)
    ensures r.Failure? ==>
      || (ClassifyMime(file.mime) == ImageFile && file.asImage == Failure(r.error))
      || (ClassifyMime(file.mime) == TextFile && file.asText == Failure(r.error))
    ensures ClassifyMime(file.mime) == ImageFile ==> r.Success? == file.asImage.Success?
    ensures ClassifyMime(file.mime) == TextFile ==> r.Success? == file.asText.Success?
  {
    match ClassifyMime(file.mime)
    case Unsupported => Success(None)
    case ImageFile =>
      (match file.asImage
       case Success(p) => Success(Some(ImageContent(p)))
       case Failure(e) => Failure(e))
    case TextFile =>
      (match file.asText
       case Success(t) => Success(Some(TextContent(t)))
       case Failure(e) => Failure(e))
  }

  // ---------------------------------------------------------------------
  // GeminiHandler.generate_response

  /** The three shapes of a provider call: the prompt alone, the prompt
      with an image, the prompt with a file's text. */
  datatype Request =
    | PromptOnly(prompt: string)
    | PromptAndImage(prompt: string, picture: Picture)
    | PromptAndText(prompt: string, text: string)

  /** The result of one `generate_response`: the text handed back, and the
      provider calls made on the way, oldest first. */
  datatype Outcome = Outcome(reply: string, calls: seq<Request>)

  const UnsupportedReply: string := "Unsupported file type."

  const ErrorPrefix: string := "Error processing request: "

  /** Python truthiness of `file_path`: present and not empty. */
  function HasFile(filePath: Option<string>): (b: bool)
    ensures b <==> filePath != None && filePath != Some("")
  {
    filePath.Some? && filePath.value != ""
  }

  /** The request that carries the prompt and a file's content. */
  function WithContent(prompt: string, c: Content): (req: Request)
    ensures req.prompt == prompt
    ensures c.ImageContent? <==> req.PromptAndImage?
    ensures c.ImageContent? ==> req.picture == c.picture
    ensures c.TextContent? ==> req == PromptAndText(prompt, c.text)
  {
    match c
    case ImageContent(p) => PromptAndImage(prompt, p)
    case TextContent(t) => PromptAndText(prompt, t)
  }

  /** The provider's text, or the catch-all error reply with its message. */
  function Answer(provided: Result<string, string>): (reply: string)
    ensures provided.Success? ==> reply == provided.value
    ensures provided.Failure? ==> reply == ErrorPrefix + provided.error
  {
    match provided
    case Success(t) => t
    case Failure(e) => ErrorPrefix + e
  }

  /** `generate_response`. The conversation context is accepted and never
      consulted; a failure while loading the file or inside the provider
      becomes the error reply instead of escaping. */
  function GenerateResponse(
    prompt: string,
    filePath: Option<string>,
    context: seq<ContextManager.Message>,
    files: string -> FileOnDisk,
    provider: Request -> Result<string, string>): (o: Outcome)
    ensures |o.calls| <= 1
    ensures forall k :: 0 <= k < |o.calls| ==> o.calls[k].prompt == prompt
    ensures |o.calls| == 1 ==> o.reply == Answer(provider(o.calls[0]))
    ensures !HasFile(filePath) ==> o.calls == [PromptOnly(prompt)]
    ensures HasFile(filePath) && ClassifyMime(files(filePath.value).mime) == Unsupported ==>
      o == Outcome(UnsupportedReply, [])
    ensures HasFile(filePath) && ProcessFileInput(files(filePath.value)).Failure? ==>
      o == Outcome(ErrorPrefix + ProcessFileInput(files(filePath.value)).error, [])
    ensures o.calls == [] <==>
      HasFile(filePath) && !(ProcessFileInput(files(filePath.value)).Success?
                             && ProcessFileInput(files(filePath.value)).value.Some?)
    ensures HasFile(filePath) && ProcessFileInput(files(filePath.value)).Success?
            && ProcessFileInput(files(filePath.value)).value.Some? ==>
      o.calls == [WithContent(prompt, ProcessFileInput(files(filePath.value)).value.value)]
  {
    if HasFile(filePath) then
      match ProcessFileInput(files(filePath.value))
      case Failure(e) => Outcome(ErrorPrefix + e, [])
      case Success(None) => Outcome(UnsupportedReply, [])
      case Success(Some(c)) =>
        var req := WithContent(prompt, c);
        Outcome(Answer(provider(req)), [req])
    else
      var req := PromptOnly(prompt);
      Outcome(Answer(provider(req)), [req])
  }

  /** The `context` argument has no influence on the outcome. */
  lemma ContextIgnored(
    prompt: string,
    filePath: Option<string>,
    c1: seq<ContextManager.Message>,
    c2: seq<ContextManager.Message>,
    files: string -> FileOnDisk,
    provider: Request -> Result<string, string>)
    ensures GenerateResponse(prompt, filePath, c1, files, provider)
         == GenerateResponse(prompt, filePath, c2, files, provider)
  {
  }
}
