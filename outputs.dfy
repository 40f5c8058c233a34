/**
  The text of `summary.txt` as `save_outputs` writes it, and the choice of
  attachment summary in `main`. The language-model replies are opaque
  strings. `main` starts the attachment summary as the empty string and
  replaces it with the model's reply object only when the form has
  attachments; `save_outputs` then compares that value with "". A reply
  object never equals "", so the second section is written exactly when a
  reply was requested, whatever its text.
*/
module Outputs {

  /** The value `save_outputs` receives as `attachment_summary`. */
  datatype AttachmentSummary =
    | NotRequested              // still the initial ""
    | Reply(content: string)    // the model's reply, whose `.content` is written

  const SummaryHeading := "Summary\n\n"
  const AttachmentHeading := "\n\n\nSummary of the attachments\n\n"

  /** `main`, lines 222-232: a reply is requested exactly when the attachment count is nonzero. */
  function AttachmentSummaryFor(attachmentCount: nat, reply: string): (a: AttachmentSummary)
    ensures a.Reply? <==> attachmentCount != 0
    ensures a.Reply? ==> a.content == reply
  {
    if attachmentCount != 0 then Reply(reply) else NotRequested
  }

  /** The content of `summary.txt`: the main section, then the attachment section if there is one. */
  function SummaryText(summary: string, attachmentSummary: AttachmentSummary): (t: string)
    ensures |SummaryHeading + summary| <= |t| && t[..|SummaryHeading + summary|] == SummaryHeading + summary
    ensures attachmentSummary.NotRequested? ==> t == SummaryHeading + summary
    ensures attachmentSummary.Reply? ==>
      t[|SummaryHeading + summary|..] == AttachmentHeading + attachmentSummary.content
  {
    match attachmentSummary
    case NotRequested => SummaryHeading + summary
    case Reply(content) => SummaryHeading + summary + AttachmentHeading + content
  }

  /**
    With no attachments `summary.txt` is exactly the main section; with
    attachments it also holds the attachment section, even when the reply
    text is empty.
  */
  lemma SecondSectionIffAttachments(summary: string, attachmentCount: nat, reply: string)
    ensures SummaryText(summary, AttachmentSummaryFor(attachmentCount, reply)) == SummaryHeading + summary
      <==> attachmentCount == 0
    ensures attachmentCount != 0 ==>
      SummaryText(summary, AttachmentSummaryFor(attachmentCount, reply))
        == SummaryHeading + summary + AttachmentHeading + reply
  {
    var t := SummaryText(summary, AttachmentSummaryFor(attachmentCount, reply));
    if attachmentCount != 0 {
      assert |t| == |SummaryHeading + summary| + |AttachmentHeading| + |reply|;
    }
  }

  /** A text file opened for writing: its content so far. */
  class TextFile {
    var content: string

    constructor ()
      ensures content == ""
    {
      content := "";
    }

    /** `open(..., "w")`: truncates whatever the file held. */
    method Open()
      modifies this
      ensures content == ""
    {
      content := "";
    }

    /** `f.write(s)` and `f.writelines(s)` on a string: appends `s`. */
    method Write(s: string)
      modifies this
      ensures content == old(content) + s
    {
      content := content + s;
    }
  }

  /** The `summary.txt` half of `save_outputs`: the two branches and their writes. */
  method SaveSummary(file: TextFile, summary: string, attachmentSummary: AttachmentSummary)
    modifies file
    ensures file.content == SummaryText(summary, attachmentSummary)
  {
    if attachmentSummary != NotRequested {
      file.Open();
      file.Write(SummaryHeading);
      file.Write(summary);
      file.Write(AttachmentHeading);
      file.Write(attachmentSummary.content);
    } else {
      file.Open();
      file.Write(SummaryHeading);
      file.Write(summary);
    }
  }
}
