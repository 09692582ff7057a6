/**
 * The part of getEmailDetails that runs once users.messages.get has
 * answered: the subject lookup among the payload's headers and the choice
 * of the content, with the catch-all fallback for a failed call or a
 * payload whose shape makes the code throw.
 */
module EmailDetails {
  import opened Wrappers
  import opened MessageParts
  import opened TextPlainSearch

  /** The record getEmailDetails resolves to. */
  datatype Details = Details(subject: string, content: string)

  /** The outcome of the users.messages.get call: the payload, or a rejected call. */
  datatype Fetch = Fetched(payload: Part) | FetchFailed

  const NoSubject: string := "No Subject"
  const NoContent: string := "No content"
  const SubjectName: string := "subject"

  /** The value the catch block returns. */
  const ErrorDetails: Details := Details("Error", "Could not fetch email content")

  // ---------------------------------------------------------------------------
  // Subject lookup.

  function LowerChar(c: char): char {
    if 'A' <= c <= 'Z' then (c as int + 32) as char else c
  }

  /** String.prototype.toLowerCase, restricted to the ASCII letters. */
  function ToLower(s: string): (r: string)
    ensures |r| == |s|
    ensures forall i :: 0 <= i < |s| ==> r[i] == LowerChar(s[i])
    ensures forall i :: 0 <= i < |r| ==> !('A' <= r[i] <= 'Z')
  {
    if s == [] then [] else [LowerChar(s[0])] + ToLower(s[1..])
  }

  /** The predicate handed to `headers.find`. */
  predicate IsSubjectName(name: string) {
    ToLower(name) == SubjectName
  }

  /** A header name matches exactly when it spells "subject" in any mix of ASCII cases. */
  lemma SubjectNameIgnoresCase(name: string)
    ensures IsSubjectName(name) <==>
      |name| == |SubjectName| && forall i :: 0 <= i < |name| ==> LowerChar(name[i]) == SubjectName[i]
  {
  }

  /** `k` is the position of the first header whose name matches. */
  predicate IsFirstSubjectIndex(hs: seq<Header>, k: int) {
    0 <= k < |hs| && IsSubjectName(hs[k].name) &&
    forall j :: 0 <= j < k ==> !IsSubjectName(hs[j].name)
  }

  /** `headers.find(...)`: the first header whose lower-cased name is "subject". */
  function FindSubjectHeader(hs: seq<Header>): (r: Option<Header>)
    decreases hs
    ensures r.None? <==> forall i :: 0 <= i < |hs| ==> !IsSubjectName(hs[i].name)
    ensures r.Some? ==> exists k :: IsFirstSubjectIndex(hs, k) && hs[k] == r.value
  {
    if hs == [] then None
    else if IsSubjectName(hs[0].name) then Some(hs[0])
    else
      var rest := FindSubjectHeader(hs[1..]);
      assert forall i :: 1 <= i < |hs| ==> hs[i] == hs[1..][i - 1];
      assert rest.Some? ==> exists k :: IsFirstSubjectIndex(hs, k) && hs[k] == rest.value by {
        if rest.Some? {
          var k :| IsFirstSubjectIndex(hs[1..], k) && hs[1..][k] == rest.value;
          assert IsFirstSubjectIndex(hs, k + 1);
        }
      }
      rest
  }

  /** There is at most one first matching position. */
  lemma FirstSubjectIndexUnique(hs: seq<Header>, k1: int, k2: int)
    requires IsFirstSubjectIndex(hs, k1) && IsFirstSubjectIndex(hs, k2)
    ensures k1 == k2
  {
  }

  /**
   * `find(...)?.value || 'No Subject'`: the value of the first subject
   * header when it is truthy, "No Subject" when there is no subject header
   * or the first one has an absent or empty value.
   */
  function Subject(hs: seq<Header>): (r: string)
    ensures r != ""
    ensures (forall i :: 0 <= i < |hs| ==> !IsSubjectName(hs[i].name)) ==> r == NoSubject
    ensures forall k :: IsFirstSubjectIndex(hs, k) ==>
      r == if hs[k].value.Some? && hs[k].value.value != "" then hs[k].value.value else NoSubject
  {
    match FindSubjectHeader(hs)
    case Some(h) =>
      var r := if h.value.Some? && h.value.value != "" then h.value.value else NoSubject;
      assert forall k :: IsFirstSubjectIndex(hs, k) ==> hs[k] == h by {
        var k0 :| IsFirstSubjectIndex(hs, k0) && hs[k0] == h;
        forall k | IsFirstSubjectIndex(hs, k) ensures hs[k] == h {
          FirstSubjectIndexUnique(hs, k, k0);
        }
      }
      r
    case None => NoSubject
  }

  // ---------------------------------------------------------------------------
  // Content selection.

  /**
   * The content of a payload: the decoded body of a `text/plain` payload,
   * the search result for a payload with a `parts` field, "No content"
   * otherwise. None stands for the TypeError thrown when a `text/plain`
   * payload has no body object.
   */
  function SelectContent(dec: Decoder, root: Part): (r: Option<string>)
    ensures r.None? <==> root.mimeType == TextPlain && root.body.None?
  {
    if root.mimeType == TextPlain then
      if root.body.Some? then Some(DecodeBody(dec, root.body.value)) else None
    else if root.parts.Present? then Some(GetTextPlain(dec, root))
    else Some(NoContent)
  }

  /**
   * Whenever the default is overwritten, the content is what getTextPlain
   * would have found starting at the root: the `text/plain` branch at the
   * root and the search agree. Only a non-`text/plain` root without `parts`
   * keeps "No content".
   */
  lemma ContentIsSearchUnlessDefault(dec: Decoder, root: Part)
    ensures IsPlainWithBody(root) || (root.mimeType != TextPlain && root.parts.Present?) ==>
      SelectContent(dec, root) == Some(GetTextPlain(dec, root))
    ensures root.mimeType != TextPlain && root.parts.Absent? ==> SelectContent(dec, root) == Some(NoContent)
  {
  }

  /**
   * A multipart payload in which no `text/plain` part yields text gets the
   * empty string as content, not "No content".
   */
  lemma MultipartWithoutTextIsEmpty(dec: Decoder, root: Part)
    requires root.mimeType != TextPlain && root.parts.Present?
    requires forall q :: q in AllParts(root) && IsPlainWithBody(q) ==> DecodeBody(dec, q.body.value) == ""
    ensures SelectContent(dec, root) == Some("")
  {
  }

  /**
   * Soundness of the content: it is "No content", the empty string, or the
   * decoded truthy `data` of a `text/plain` part of the tree.
   */
  lemma ContentSound(dec: Decoder, root: Part)
    requires SelectContent(dec, root).Some?
    ensures var c := SelectContent(dec, root).value;
      c == NoContent || c == "" ||
      exists q :: q in AllParts(root) && IsPlainWithBody(q) && HasData(q.body.value) &&
        c == dec(q.body.value.data.value)
  {
  }

  // ---------------------------------------------------------------------------
  // The whole step.

  /**
   * The situations in which getEmailDetails ends in its catch block: the
   * call was rejected, the payload has no `headers` array, or a `text/plain`
   * payload has no body for decodeBody to read `data` from.
   */
  predicate Throws(f: Fetch) {
    f.FetchFailed? || f.payload.headers.None? ||
    (f.payload.mimeType == TextPlain && f.payload.body.None?)
  }

  /**
   * getEmailDetails after the remote call has settled. When nothing throws,
   * the subject is the first matching header's truthy value or "No Subject",
   * and the content is what getTextPlain finds from the root, unless the root
   * is neither `text/plain` nor multipart, which keeps "No content".
   */
  function GetEmailDetails(dec: Decoder, f: Fetch): (d: Details)
    ensures Throws(f) ==> d == ErrorDetails
    ensures !Throws(f) ==> d.subject != ""
    ensures !Throws(f) ==>
      (forall i :: 0 <= i < |f.payload.headers.value| ==> !IsSubjectName(f.payload.headers.value[i].name)) ==>
        d.subject == NoSubject
    ensures !Throws(f) ==> forall k :: IsFirstSubjectIndex(f.payload.headers.value, k) ==>
      d.subject == if f.payload.headers.value[k].value.Some? && f.payload.headers.value[k].value.value != ""
        then f.payload.headers.value[k].value.value else NoSubject
    ensures !Throws(f) && (f.payload.mimeType == TextPlain || f.payload.parts.Present?) ==>
      d.content == GetTextPlain(dec, f.payload)
    ensures !Throws(f) && f.payload.mimeType != TextPlain && f.payload.parts.Absent? ==>
      d.content == NoContent
    ensures !Throws(f) ==>
      d.content == NoContent || d.content == "" ||
      exists q :: q in AllParts(f.payload) && IsPlainWithBody(q) && HasData(q.body.value) &&
        d.content == dec(q.body.value.data.value)
  {
    if Throws(f) then ErrorDetails
    else
      ContentIsSearchUnlessDefault(dec, f.payload);
      var subject := Subject(f.payload.headers.value);
      var content := SelectContent(dec, f.payload);
      Details(subject, content.value)
  }

  /** The subject is "No Subject" or the value of a header whose name matches. */
  lemma SubjectSound(hs: seq<Header>)
    ensures Subject(hs) == NoSubject ||
      exists h :: h in hs && IsSubjectName(h.name) && h.value == Some(Subject(hs))
  {
  }

  /**
   * End to end: the subject is "Error", "No Subject" or the value of a
   * subject header; the content is the error text, "No content", the empty
   * string or the decoded `data` of a `text/plain` part of the message.
   */
  lemma DetailsSound(dec: Decoder, f: Fetch)
    ensures var d := GetEmailDetails(dec, f);
      (d.subject == ErrorDetails.subject || d.subject == NoSubject ||
        exists h :: h in f.payload.headers.value && IsSubjectName(h.name) && h.value == Some(d.subject)) &&
      (d.content == ErrorDetails.content || d.content == NoContent || d.content == "" ||
        exists q :: q in AllParts(f.payload) && IsPlainWithBody(q) && HasData(q.body.value) &&
          d.content == dec(q.body.value.data.value))
  {
  }

  /**
   * The details are a function of the fetched message: two decoders that
   * agree on every truthy `data` string of the tree give the same details.
   */
  lemma DetailsDependOnlyOnMessage(dec1: Decoder, dec2: Decoder, f: Fetch)
    requires f.Fetched? ==>
      forall q :: q in AllParts(f.payload) && q.body.Some? && HasData(q.body.value) ==>
        dec1(q.body.value.data.value) == dec2(q.body.value.data.value)
    ensures GetEmailDetails(dec1, f) == GetEmailDetails(dec2, f)
  {
    if !Throws(f) {
      GetTextPlainDependsOnlyOnTree(dec1, dec2, f.payload);
      assert f.payload in AllParts(f.payload);
    }
  }
}
