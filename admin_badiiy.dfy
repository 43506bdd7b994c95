/** The save handler of the admin page of badiiy (fiction) books: its name guard and
    the choice between an uploaded file id and the id already in the form. The page's
    pagination is the admin window of `AdminBooks`. */
module AdminBadiiy {
  import opened Wrappers
  import opened FrontendForms

  const NameRequiredAlert: string := "Nomi majburiy"
  const UploadAlert: string := "Fayl yuklashda xatolik"

  /** The badiiy form: `pdfId` and `imageId` hold the stored id of an edited item,
      `null`, or a `File` just chosen in the file input. */
  datatype BadiiyForm = BadiiyForm(name: JsValue, author: string, publisher: string, genre: string, description: string,
                                   pdfId: JsValue, imageId: JsValue)

  /** What is sent to the server. */
  datatype BadiiyPayload = BadiiyPayload(name: JsValue, author: string, publisher: string, genre: string, description: string,
                                         pdfId: JsValue, imageId: JsValue)

  /** One id of the payload: `uploaded || formValue`, where `uploaded` is what the
      upload answered when a `File` was chosen and `null` otherwise. */
  function PayloadId(formValue: JsValue, uploaded: JsValue): (r: JsValue)
    ensures !formValue.File? ==> r == formValue
    ensures formValue.File? && Truthy(uploaded) ==> r == uploaded
    ensures formValue.File? && !Truthy(uploaded) ==> r == formValue
  {
    Or(if formValue.File? then uploaded else Null, formValue)
  }

  /** `handleSave`: without a name the form is refused. Otherwise the PDF is uploaded
      if a `File` was chosen, then the image likewise; `pdfUpload` and `imageUpload`
      are the upload answers, `None` when the upload throws, which ends the save with
      an alert. The payload keeps the form's id where no file was chosen, takes the
      uploaded id where one was, and falls back to the `File` itself when the upload
      answered with nothing. */
  function HandleSave(form: BadiiyForm, editId: Option<int>, pdfUpload: Option<JsValue>, imageUpload: Option<JsValue>)
    : (r: Request<BadiiyPayload>)
    ensures r.Refused? <==> !Truthy(form.name)
    ensures r.Refused? ==> r.alert == NameRequiredAlert
    ensures r.UploadFailed? <==>
      Truthy(form.name) && ((form.pdfId.File? && pdfUpload.None?) || (form.imageId.File? && imageUpload.None?))
    ensures (r.Post? || r.Put?) ==>
      && (r.Put? <==> editId.Some? && editId.value != 0)
      && r.payload.name == form.name && r.payload.author == form.author && r.payload.publisher == form.publisher
      && r.payload.genre == form.genre && r.payload.description == form.description
      && (!form.pdfId.File? ==> r.payload.pdfId == form.pdfId)
      && (!form.imageId.File? ==> r.payload.imageId == form.imageId)
      && (form.pdfId.File? ==> r.payload.pdfId == Or(pdfUpload.value, form.pdfId))
      && (form.imageId.File? ==> r.payload.imageId == Or(imageUpload.value, form.imageId))
  {
    if !Truthy(form.name) then Refused(NameRequiredAlert)
    else if form.pdfId.File? && pdfUpload.None? then UploadFailed(UploadAlert)
    else if form.imageId.File? && imageUpload.None? then UploadFailed(UploadAlert)
    else
      var pdfId := if form.pdfId.File? then pdfUpload.value else Null;
      var imageId := if form.imageId.File? then imageUpload.value else Null;
      var payload := BadiiyPayload(form.name, form.author, form.publisher, form.genre, form.description,
                                   PayloadId(form.pdfId, pdfId), PayloadId(form.imageId, imageId));
      Target(editId, payload)
  }
}
