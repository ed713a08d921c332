/**
 The comment list in the admin console (blog/admin.py) shows each comment's
 text cut to a preview.
 */
module Admin {

  /** Longest text shown unabridged. */
  const PreviewLength: nat := 50

  /** `CommentAdmin.text_preview`: the text itself when it fits, otherwise its
      first `PreviewLength` characters followed by an ellipsis. */
  function TextPreview(text: string): (r: string)
    ensures |text| <= PreviewLength ==> r == text
    ensures |text| > PreviewLength ==> |r| == PreviewLength + 3 && r[PreviewLength..] == "..."
    ensures |r| <= PreviewLength + 3
    ensures |text| <= PreviewLength ==> |r| == |text|
    ensures var kept := if |text| < PreviewLength then |text| else PreviewLength;
      kept <= |r| && r[..kept] == text[..kept]
  {
    if |text| > PreviewLength then text[..PreviewLength] + "..." else text
  }

  /** A preview of a preview is the preview itself. */
  lemma TextPreviewIdempotent(text: string)
    ensures TextPreview(TextPreview(text)) == TextPreview(text)
  {
  }

  /** Two texts share a preview exactly when they are equal, or both are too
      long and agree on their first `PreviewLength` characters. */
  lemma TextPreviewCollisions(a: string, b: string)
    ensures TextPreview(a) == TextPreview(b) <==>
      a == b || (|a| > PreviewLength && |b| > PreviewLength && a[..PreviewLength] == b[..PreviewLength])
  {
  }
}
