/** Response shaping of the `/upload` handler: the caption chosen from the
    captioning model's output, the public URL of the stored image, and the
    JSON body returned with its status code. */
module Handler {
  import opened Python
  import opened Upload

  /** The first element of the captioning pipeline's result: the values its
      dictionary holds under `generated_text` and `caption`, if any. */
  datatype ModelOutput = ModelOutput(generatedText: Option<string>, caption: Option<string>)

  /** `result[0].get('generated_text') or result[0].get('caption') or str(result)`,
      where `rawResult` stands for `str(result)`. */
  function SelectCaption(first: ModelOutput, rawResult: string): (caption: string)
    ensures Truthy(first.generatedText) ==> caption == first.generatedText.value
    ensures !Truthy(first.generatedText) && Truthy(first.caption) ==> caption == first.caption.value
    ensures !Truthy(first.generatedText) && !Truthy(first.caption) ==> caption == rawResult
  {
    var chosen := OrChain([first.generatedText, first.caption, Some(rawResult)]);
    OrChainOfThree(first.generatedText, first.caption, Some(rawResult));
    chosen.value
  }

  /** The caption is one of the three candidates, and it is empty only when
      it is the stringified raw result. */
  lemma SelectCaptionNeverEmptyField(first: ModelOutput, rawResult: string)
    ensures var c := SelectCaption(first, rawResult);
      (first.generatedText.Some? && c == first.generatedText.value)
      || (first.caption.Some? && c == first.caption.value)
      || c == rawResult
    ensures SelectCaption(first, rawResult) == "" ==> SelectCaption(first, rawResult) == rawResult
  {
  }

  /** `request.host_url.rstrip('/') + "/uploads/" + filename`. */
  function ImageUrl(hostUrl: string, filename: string): (url: string)
    ensures |url| >= |"/uploads/" + filename|
    ensures url[|url| - |"/uploads/" + filename|..] == "/uploads/" + filename
  {
    RStrip(hostUrl, '/') + "/uploads/" + filename
  }

  /** What is in front of `/uploads/` is the host URL with all of its
      trailing slashes removed and nothing else: a prefix of the host that
      does not end in `/` and is followed only by slashes. */
  lemma ImageUrlHostPart(hostUrl: string, filename: string)
    ensures var url := ImageUrl(hostUrl, filename);
      var host := url[..|url| - |"/uploads/" + filename|];
      host <= hostUrl
      && (host == [] || host[|host| - 1] != '/')
      && (forall j :: |host| <= j < |hostUrl| ==> hostUrl[j] == '/')
  {
    var url := ImageUrl(hostUrl, filename);
    assert url[..|url| - |"/uploads/" + filename|] == RStrip(hostUrl, '/');
  }

  /** Any number of trailing slashes on the host gives the same URL. */
  lemma ImageUrlIgnoresTrailingSlashes(hostUrl: string, n: nat, filename: string)
    ensures ImageUrl(hostUrl + seq(n, _ => '/'), filename) == ImageUrl(hostUrl, filename)
  {
    RStripIgnoresTrailing(hostUrl, '/', n);
  }

  /** The JSON body of a response. */
  datatype Body =
    | Success(imageUrl: string, caption: string, filename: string)
    | Error(error: string)

  /** An HTTP response: the status code and the JSON body. */
  datatype Response = Response(status: nat, body: Body)

  /** The `/upload` handler up to the broad exception handler. The saved file,
      the decoded image and the model call are outside the model: the
      pipeline's output for the stored image is given as `first` and its
      string form as `rawResult`, and `secureFilename` is Werkzeug's
      `secure_filename`, left uninterpreted. */
  function UploadResponse(files: Files, hostUrl: string, secureFilename: string -> string,
                          first: ModelOutput, rawResult: string): (resp: Response)
    ensures resp.status == 400 || resp.status == 200
    ensures resp.status == 400 <==> Validate(files).Reject?
    ensures resp.status == 400 ==> resp.body == Error(Validate(files).message)
    ensures resp.status == 200 ==> resp.body.Success?
  {
    match Validate(files)
    case Reject(message) => Response(400, Error(message))
    case Proceed(file) =>
      var filename := secureFilename(file.filename);
      var caption := SelectCaption(first, rawResult);
      Response(200, Success(ImageUrl(hostUrl, filename), caption, filename))
  }

  /** A successful body: it comes from a request whose `file` part has a
      non-empty, allowed name; its `filename` is the sanitized name; its
      `image_url` is the image URL built from the host URL and that filename,
      so it ends with `/uploads/` and that filename; its caption is the
      selected one. */
  lemma {:induction false} SuccessBody(files: Files, hostUrl: string, secureFilename: string -> string,
                                       first: ModelOutput, rawResult: string)
    requires UploadResponse(files, hostUrl, secureFilename, first, rawResult).body.Success?
    ensures "file" in files && files["file"].filename != "" && AllowedFile(files["file"].filename)
    ensures var b := UploadResponse(files, hostUrl, secureFilename, first, rawResult).body;
      && b.filename == secureFilename(files["file"].filename)
      && b.imageUrl == ImageUrl(hostUrl, b.filename)
      && |b.imageUrl| >= |"/uploads/" + b.filename|
      && b.imageUrl[|b.imageUrl| - |"/uploads/" + b.filename|..] == "/uploads/" + b.filename
      && b.caption == SelectCaption(first, rawResult)
  {
    ValidateProceeds(files);
  }

  /** The three client errors, each with its own message, in the order the
      handler checks them. */
  lemma {:induction false} ClientErrors(files: Files, hostUrl: string, secureFilename: string -> string,
                                        first: ModelOutput, rawResult: string)
    ensures var resp := UploadResponse(files, hostUrl, secureFilename, first, rawResult);
      && ("file" !in files ==> resp == Response(400, Error(NoFileProvided)))
      && ("file" in files && files["file"].filename == "" ==> resp == Response(400, Error(NoFileSelected)))
      && ("file" in files && files["file"].filename != "" && !AllowedFile(files["file"].filename)
          ==> resp == Response(400, Error(FileTypeNotAllowed)))
  {
    ValidateNoFileProvided(files);
    ValidateNoFileSelected(files);
    ValidateFileTypeNotAllowed(files);
  }
}
