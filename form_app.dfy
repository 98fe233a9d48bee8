/**
 * The upload views of the form demo (`upload`, `multi_upload`,
 * `dropzone_upload`, `upload_for_ckeditor`) as methods of one server object
 * whose fields are the state those views change: the session, the names of
 * the files written to the upload folder, and the queue of flashed messages.
 * A file part is represented by its client-side file name; a part sent
 * without a file has the empty name, which makes the part falsy.
 */
module FormApp {
  import opened Wrappers
  import opened Web
  import opened Strings
  import opened UploadPolicy
  import Forms

  /** A request to `/upload`: its method, the CSRF outcome and the `photo` part, if any. */
  datatype UploadRequest = UploadRequest(isPost: bool, csrfValid: bool, photo: Option<string>)

  /** A request to `/multi-upload`: the `photo` parts in order, None when the request has none. */
  datatype MultiUploadRequest = MultiUploadRequest(isPost: bool, csrfValid: bool, photos: Option<seq<string>>)

  /** A request to `/dropzone-upload`: the `file` part, if any. */
  datatype DropzoneRequest = DropzoneRequest(isPost: bool, file: Option<string>)

  /** The session key under which the views leave the names of the stored files. */
  const FilenamesKey := "filenames"

  class UploadServer {
    /** The signed session cookie's content. */
    var session: map<string, Value>
    /** Names of the files saved to UPLOAD_PATH, in the order they were written. */
    var saved: seq<string>
    /** Messages passed to `flash`, in order. */
    var flashes: seq<string>

    constructor ()
      ensures session == map[] && saved == [] && flashes == []
    {
      session := map[];
      saved := [];
      flashes := [];
    }

    /**
     * `upload`: when the form validates on submit, the photo is saved under a
     * random name, which becomes the session's only file name; otherwise the
     * form page is rendered again and nothing changes.
     */
    method Upload(req: UploadRequest, token: string) returns (resp: Response)
      modifies this
      ensures var ok := req.isPost && req.csrfValid && Forms.UploadFormErrors(req.photo) == [];
              if ok then
                var name := RandomFilename(token, req.photo.value);
                && saved == old(saved) + [name]
                && flashes == old(flashes) + ["Upload success."]
                && session == old(session)[FilenamesKey := Names([name])]
                && resp == RedirectToEndpoint("show_images")
              else
                && saved == old(saved) && flashes == old(flashes) && session == old(session)
                && resp == Render("upload.html")
    {
      if req.isPost && req.csrfValid && Forms.UploadFormErrors(req.photo) == [] {
        var name := RandomFilename(token, req.photo.value);
        saved := saved + [name];
        flashes := flashes + ["Upload success."];
        session := session[FilenamesKey := Names([name])];
        resp := RedirectToEndpoint("show_images");
      } else {
        resp := Render("upload.html");
      }
    }

    /**
     * `multi_upload`: after the CSRF and `photo` checks, the parts are taken in
     * order; each allowed one is saved at once under the next token, and the
     * first refused one ends the request with the session untouched. Only when
     * every part passes does the session receive the list of new names.
     * `tokens` stands for the successive values of uuid4().hex.
     */
    method MultiUpload(req: MultiUploadRequest, tokens: seq<string>) returns (resp: Response)
      requires req.photos.Some? ==> |tokens| >= |req.photos.value|
      modifies this
      ensures !req.isPost ==>
                saved == old(saved) && flashes == old(flashes) && session == old(session)
                && resp == Render("upload.html")
      ensures req.isPost && !req.csrfValid ==>
                saved == old(saved) && flashes == old(flashes) + ["CSRF token error."]
                && session == old(session) && resp == RedirectToEndpoint("multi_upload")
      ensures req.isPost && req.csrfValid && req.photos.None? ==>
                saved == old(saved) && flashes == old(flashes) + ["This field is required."]
                && session == old(session) && resp == RedirectToEndpoint("multi_upload")
      ensures req.isPost && req.csrfValid && req.photos.Some? ==>
                var names := req.photos.value;
                var k := FirstDisallowed(names);
                && saved == old(saved) + NewNames(tokens, names[..k])
                && (k == |names| ==>
                      && flashes == old(flashes) + ["Upload success."]
                      && session == old(session)[FilenamesKey := Names(NewNames(tokens, names))]
                      && resp == RedirectToEndpoint("show_images"))
                && (k < |names| ==>
                      && flashes == old(flashes) + ["Invalid file type."]
                      && session == old(session)
                      && resp == RedirectToEndpoint("multi_upload"))
    {
      if !req.isPost {
        return Render("upload.html");
      }
      if !req.csrfValid {
        flashes := flashes + ["CSRF token error."];
        return RedirectToEndpoint("multi_upload");
      }
      if req.photos.None? {
        flashes := flashes + ["This field is required."];
        return RedirectToEndpoint("multi_upload");
      }
      var names := req.photos.value;
      var filenames: seq<string> := [];
      var i := 0;
      while i < |names|
        invariant 0 <= i <= |names|
        invariant i <= FirstDisallowed(names)
        invariant filenames == NewNames(tokens, names[..i])
        invariant saved == old(saved) + filenames
        invariant flashes == old(flashes) && session == old(session)
      {
        var f := names[i];
        if f != "" && AllowedFile(f) {
          var filename := RandomFilename(tokens[i], f);
          NewNamesExtend(tokens, names, i);
          FirstDisallowedPast(names, i);
          saved := saved + [filename];
          filenames := filenames + [filename];
        } else {
          FirstDisallowedStops(names, i);
          flashes := flashes + ["Invalid file type."];
          return RedirectToEndpoint("multi_upload");
        }
        i := i + 1;
      }
      assert names[..i] == names;
      flashes := flashes + ["Upload success."];
      session := session[FilenamesKey := Names(filenames)];
      resp := RedirectToEndpoint("show_images");
    }

    /**
     * `dropzone_upload`: a POST without a `file` part or with a refused file
     * gets a 400 body and stores nothing; an allowed file is saved under a
     * random name and the page is rendered as for a GET.
     */
    method DropzoneUpload(req: DropzoneRequest, token: string) returns (resp: Response)
      modifies this
      ensures session == old(session) && flashes == old(flashes)
      ensures !req.isPost ==> saved == old(saved) && resp == Render("dropzone.html")
      ensures req.isPost && req.file.None? ==>
                saved == old(saved) && resp == Body("This field is required.", 400)
      ensures req.isPost && req.file.Some? && !AllowedFile(req.file.value) ==>
                saved == old(saved) && resp == Body("Invalid file type.", 400)
      ensures req.isPost && req.file.Some? && AllowedFile(req.file.value) ==>
                saved == old(saved) + [RandomFilename(token, req.file.value)]
                && resp == Render("dropzone.html")
    {
      if req.isPost {
        if req.file.None? {
          return Body("This field is required.", 400);
        }
        var f := req.file.value;
        if f != "" && AllowedFile(f) {
          var filename := RandomFilename(token, f);
          saved := saved + [filename];
        } else {
          return Body("Invalid file type.", 400);
        }
      }
      resp := Render("dropzone.html");
    }

    /**
     * `upload_for_ckeditor`: a refused name gets CKEditor's failure reply; an
     * allowed file is saved under the client's own name, unchanged. A request
     * without an `upload` part fails on `None.filename` and ends in a 500.
     */
    method UploadForCkeditor(upload: Option<string>) returns (resp: Response)
      modifies this
      ensures session == old(session) && flashes == old(flashes)
      ensures upload.None? ==> saved == old(saved) && resp == Uncaught
      ensures upload.Some? && !AllowedFile(upload.value) ==>
                saved == old(saved) && resp == CkUploadFail("Image only!")
      ensures upload.Some? && AllowedFile(upload.value) ==>
                saved == old(saved) + [upload.value] && resp == CkUploadSuccess(upload.value)
    {
      if upload.None? {
        return Uncaught;
      }
      var f := upload.value;
      if !AllowedFile(f) {
        return CkUploadFail("Image only!");
      }
      saved := saved + [f];
      resp := CkUploadSuccess(f);
    }
  }

  /** A name that passes, past a prefix that passes, moves the first refusal further on. */
  lemma FirstDisallowedPast(names: seq<string>, i: nat)
    requires i <= FirstDisallowed(names) && i < |names| && AllowedFile(names[i])
    ensures i + 1 <= FirstDisallowed(names)
  {
  }

  /** A refused name past a prefix that passes is the first refusal. */
  lemma FirstDisallowedStops(names: seq<string>, i: nat)
    requires i <= FirstDisallowed(names) && i < |names| && !AllowedFile(names[i])
    ensures FirstDisallowed(names) == i
  {
  }

  /**
   * Unlike the other upload views, `upload_for_ckeditor` stores the client's
   * name as given, so an allowed name may carry directory components.
   */
  lemma CkeditorKeepsDirectories(dir: string, stem: string, ext: string)
    requires '.' !in ext && Lower(ext) in AllowedExtensions
    ensures var name := dir + "/" + stem + "." + ext;
            AllowedFile(name) && '/' in name
  {
    var name := dir + "/" + stem + "." + ext;
    assert name == (dir + "/" + stem) + "." + ext;
    AllowedFileOfParts(dir + "/" + stem, ext);
    assert name[|dir|] == '/';
  }
}
