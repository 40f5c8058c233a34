/**
  `main`: locate the PDF, read its form fields, map them, and, when the form
  has attachments, assemble their text for the attachment summary; then
  produce the summary file's text. The PDF engine's view of the chosen file
  (its pages of widgets and its attachments) and the two language-model
  replies are inputs.
*/
module Pipeline {
  import opened Wrappers
  import opened Locator
  import opened FormReader
  import opened SchemaMapper
  import opened Attachments
  import opened Outputs

  /** What one run produces. */
  datatype Outcome = Outcome(
    pdf: string,                     // the file chosen from the listing
    data: seq<(string, string)>,     // the record written to data.json
    attachmentText: Option<string>,  // the text sent for the attachment summary, if any
    summaryFile: string)             // the content of summary.txt

  /**
    One run. There is no outcome exactly when the listing has no PDF. The
    attachment count is the number of embedded files, so the attachment
    branch is taken exactly when there is at least one.
  */
  method Run(listing: seq<string>, pages: seq<seq<Widget>>, attachments: seq<Attachment>,
             summaryReply: string, attachmentReply: string)
    returns (r: Option<Outcome>)
    ensures r.None? <==> forall i :: 0 <= i < |listing| ==> !IsPdfName(listing[i])
    ensures r.Some? ==>
      exists i :: 0 <= i < |listing| && listing[i] == r.value.pdf && IsPdfName(listing[i]) &&
        forall j :: 0 <= j < i ==> !IsPdfName(listing[j])
    ensures r.Some? ==> r.value.data == StructureFormData(Collected(Flatten(pages)))
    ensures r.Some? ==> r.value.attachmentText == if |attachments| == 0 then None else Some(AllDoc(attachments))
    ensures r.Some? ==>
      r.value.summaryFile == SummaryText(summaryReply, AttachmentSummaryFor(|attachments|, attachmentReply))
  {
    var pdf := SelectPdf(listing);
    if pdf.None? {
      return None;
    }
    var formData := CollectFields(pages);
    var attachmentCount := |attachments|;
    var data := StructureFormData(formData);
    var summary := summaryReply;
    var attachmentSummary := NotRequested;
    var attachmentText := None;
    if attachmentCount != 0 {
      var allDoc := ExtractEmbeddedDocuments(attachments);
      attachmentText := Some(allDoc);
      attachmentSummary := Reply(attachmentReply);
    }
    var file := new TextFile();
    SaveSummary(file, summary, attachmentSummary);
    return Some(Outcome(pdf.value, data, attachmentText, file.content));
  }
}
