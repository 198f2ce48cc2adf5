/**
  `FormFileContent.BindAsync`: the custom binding of an uploaded photo. The
  request's form is read (an I/O step; its outcome is the `files` field) and the
  first uploaded file, if any, is wrapped.
 */
module Binding {
  import opened Wrappers
  import Models

  /** An uploaded file: its form field name, its client-side file name and its bytes. */
  datatype FormFile = FormFile(name: string, fileName: string, content: seq<Models.byte>)

  /** The wrapper whose `Content` is the file it was constructed with. */
  datatype FormFileContent = FormFileContent(content: FormFile)

  /** The media type of a request body, as far as the binding and the routes care. */
  datatype ContentType = MultipartFormData | FormUrlEncoded | OtherContentType

  /** The parts of the request the binding looks at: its media type, and the files
      of the form (null when the form has no file collection). */
  datatype Request = Request(contentType: ContentType, files: Option<seq<FormFile>>)

  /** `HttpRequest.HasFormContentType`: either of the two form media types. */
  predicate HasFormContentType(request: Request) {
    request.contentType == MultipartFormData || request.contentType == FormUrlEncoded
  }

  function BindAsync(request: Request): (bound: Option<FormFileContent>)
    ensures bound.None? <==> !HasFormContentType(request) || request.files.None? || request.files.value == []
    ensures bound.Some? ==> bound.value.content == request.files.value[0]
  {
    if !HasFormContentType(request) then None
    else
      var file := if request.files.Some? && |request.files.value| > 0 then Some(request.files.value[0]) else None;
      if file.None? then None else Some(FormFileContent(file.value))
  }

  /** Files after the first never reach the wrapper. */
  lemma LaterFilesIgnored(contentType: ContentType, first: FormFile, later: seq<FormFile>)
    ensures BindAsync(Request(contentType, Some([first] + later))) == BindAsync(Request(contentType, Some([first])))
  {
  }
}
