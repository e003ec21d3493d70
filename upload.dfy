/** Validation of an upload request: the extension allow-list check
    `allowed_file` and the ordered early-return checks at the start of the
    `/upload` handler. */
module Upload {
  import opened Python

  /** The image extensions an upload may carry (compared after lowering). */
  const AllowedExtensions: set<string> := {"png", "jpg", "jpeg", "gif", "webp"}

  /** Every allowed extension is non-empty, free of dots and already in
      lower case, so it can be matched by a lowered final extension. */
  lemma AllowedExtensionsLowered()
    ensures forall e :: e in AllowedExtensions ==> e != "" && '.' !in e && Lower(e) == e
  {
    forall e | e in AllowedExtensions ensures e != "" && '.' !in e && Lower(e) == e {
      assert forall i :: 0 <= i < |e| ==> 'a' <= e[i] <= 'z';
      LowerOfLowerCase(e);
    }
  }

  /** `allowed_file(filename)`: there is a `.`, and the text after the last
      `.`, lowered, is an allowed extension. The `and` short-circuits, so the
      second part of `rsplit` is only taken when it exists. Read without
      `rsplit`: some `.` in the name has no `.` after it, and the lowered
      text after it is an allowed extension. */
  function AllowedFile(filename: string): (ok: bool)
    ensures ok <==>
      exists k :: 0 <= k < |filename| && filename[k] == '.' && '.' !in filename[k + 1..]
                  && Lower(filename[k + 1..]) in AllowedExtensions
  {
    if '.' in filename then
      var k := LastIndexOf(filename, '.');
      assert filename == filename[..k] + ['.'] + filename[k + 1..];
      RSplitOnceOfJoin(filename[..k], '.', filename[k + 1..]);
      Lower(RSplitOnce(filename, '.')[1]) in AllowedExtensions
    else
      false
  }

  /** A name without any `.` is never allowed. */
  lemma NoDotNotAllowed(filename: string)
    requires '.' !in filename
    ensures !AllowedFile(filename)
  {
  }

  /** Only the final extension decides: whatever the stem (which may itself
      contain dots), `stem.ext` is allowed exactly when `ext` lowered is in
      the allow-list. */
  lemma {:induction false} AllowedFileByFinalExtension(stem: string, ext: string)
    requires '.' !in ext
    ensures AllowedFile(stem + "." + ext) <==> Lower(ext) in AllowedExtensions
  {
    RSplitOnceOfJoin(stem, '.', ext);
    assert stem + "." + ext == stem + ['.'] + ext;
  }

  /** `allowed_file` ignores letter case: lowering the whole name first does
      not change the verdict. */
  lemma {:induction false} AllowedFileOfLower(filename: string)
    ensures AllowedFile(Lower(filename)) == AllowedFile(filename)
  {
    RSplitOnceOfLower(filename, '.');
    if '.' in filename {
      LowerIdempotent(RSplitOnce(filename, '.')[1]);
    }
  }

  /** Two names that differ only in letter case get the same verdict. */
  lemma AllowedFileCaseInsensitive(a: string, b: string)
    requires Lower(a) == Lower(b)
    ensures AllowedFile(a) == AllowedFile(b)
  {
    AllowedFileOfLower(a);
    AllowedFileOfLower(b);
  }

  /** The last extension counts, in any letter case: `a.tar.PNG` is accepted. */
  lemma MixedCaseExtensionExample()
    ensures AllowedFile("a.tar.PNG")
  {
    assert "a.tar" + "." + "PNG" == "a.tar.PNG";
    assert AllowedFile("a.tar" + "." + "PNG") by {
      assert Lower("PNG") == "png";
      AllowedFileByFinalExtension("a.tar", "PNG");
    }
  }

  /** An allowed extension before the last dot does not help: `x.png.exe` is
      rejected. */
  lemma InnerExtensionExample()
    ensures !AllowedFile("x.png.exe")
  {
    assert "x.png" + "." + "exe" == "x.png.exe";
    assert !AllowedFile("x.png" + "." + "exe") by {
      assert Lower("exe") == "exe" && "exe" !in AllowedExtensions;
      AllowedFileByFinalExtension("x.png", "exe");
    }
  }

  /** A trailing dot gives the empty extension, which is rejected; a bare
      extension without a dot is rejected; a name that is only a dot and an
      extension, such as `.png`, is accepted. */
  lemma DotEdgeExamples()
    ensures !AllowedFile("photo.")
    ensures !AllowedFile("png")
    ensures AllowedFile(".png")
  {
    assert "photo" + "." + "" == "photo.";
    assert !AllowedFile("photo" + "." + "") by {
      assert Lower("") == "";
      AllowedFileByFinalExtension("photo", "");
    }
    NoDotNotAllowed("png");
    assert "" + "." + "png" == ".png";
    assert AllowedFile("" + "." + "png") by {
      assert Lower("png") == "png";
      AllowedFileByFinalExtension("", "png");
    }
  }

  /** A file part of a multipart request; only its client-supplied name is
      inspected by the validation. */
  datatype UploadedFile = UploadedFile(filename: string)

  /** `request.files`: the file parts of the request, by form field name. */
  type Files = map<string, UploadedFile>

  const NoFileProvided: string := "No file provided"
  const NoFileSelected: string := "No file selected"
  const FileTypeNotAllowed: string := "File type not allowed. Use PNG, JPG, JPEG, GIF, or WebP"

  /** Outcome of validation: a 400 rejection with its message, or the file
      whose processing goes on. */
  datatype Validation = Reject(message: string) | Proceed(file: UploadedFile)

  /** The early returns of the upload handler, in source order. */
  function Validate(files: Files): (v: Validation)
    ensures v.Proceed? ==>
      "file" in files && v.file == files["file"] && v.file.filename != "" && AllowedFile(v.file.filename)
    ensures v.Reject? ==> v.message in {NoFileProvided, NoFileSelected, FileTypeNotAllowed}
  {
    if "file" !in files then Reject(NoFileProvided)
    else
      var file := files["file"];
      if file.filename == "" then Reject(NoFileSelected)
      else if !AllowedFile(file.filename) then Reject(FileTypeNotAllowed)
      else Proceed(file)
  }

  /** The three 400 messages differ, so the message names the failed check. */
  lemma MessagesDistinct()
    ensures NoFileProvided != NoFileSelected
    ensures NoFileProvided != FileTypeNotAllowed
    ensures NoFileSelected != FileTypeNotAllowed
  {
    assert NoFileProvided[8] != NoFileSelected[8];
  }

  /** The first check: a request without a `file` part gets "No file
      provided", and no other request does. */
  lemma ValidateNoFileProvided(files: Files)
    ensures Validate(files) == Reject(NoFileProvided) <==> "file" !in files
  {
    MessagesDistinct();
  }

  /** The second check: "No file selected" is given exactly when the part is
      present and its name is empty. */
  lemma ValidateNoFileSelected(files: Files)
    ensures Validate(files) == Reject(NoFileSelected) <==>
      "file" in files && files["file"].filename == ""
  {
    MessagesDistinct();
  }

  /** The third check: the file-type message is given exactly when the part
      is present, its name is non-empty and its extension is not allowed. */
  lemma ValidateFileTypeNotAllowed(files: Files)
    ensures Validate(files) == Reject(FileTypeNotAllowed) <==>
      "file" in files && files["file"].filename != "" && !AllowedFile(files["file"].filename)
  {
    MessagesDistinct();
  }

  /** Only a request that passes all three checks proceeds, and it proceeds
      with the file of its `file` part. */
  lemma ValidateProceeds(files: Files)
    ensures Validate(files).Proceed? <==>
      "file" in files && files["file"].filename != "" && AllowedFile(files["file"].filename)
    ensures Validate(files).Proceed? ==> Validate(files).file == files["file"]
  {
  }

  /** Every request that proceeds names a file with a non-empty name whose
      final extension, lowered, is in the allow-list. */
  lemma ProceedHasAllowedFinalExtension(files: Files)
    requires Validate(files).Proceed?
    ensures "file" in files && files["file"].filename != ""
    ensures var name := files["file"].filename;
      exists k :: 0 <= k < |name| && name[k] == '.' && '.' !in name[k + 1..]
                  && Lower(name[k + 1..]) in AllowedExtensions
  {
  }

  /** The order matters: an empty name also fails the extension check, yet
      it is reported as "No file selected", because that check comes first. */
  lemma EmptyNameReportedAsNotSelected(files: Files)
    requires "file" in files && files["file"].filename == ""
    ensures !AllowedFile(files["file"].filename)
    ensures Validate(files) == Reject(NoFileSelected)
  {
  }
}
