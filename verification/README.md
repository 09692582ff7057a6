# gmail-parser: the message-decoding step of getEmailDetails

This project models, in Dafny, the pure part of `getEmailDetails` in the
gmail-parser script: what happens once the Gmail API has returned a message
with `format: 'full'`.

- `decodeBody` turns a part body into text. It returns the empty string when
  `body.data` is falsy, which covers both an absent and an empty `data`.
- `getTextPlain` searches the part tree depth first, in pre-order. A
  `text/plain` part with a body answers with its own decoded body, even when
  that is empty, and its children are not looked at. Any other part asks its
  children in order and returns the first non-empty answer, or `''`.
- The subject is the value of the first header whose lower-cased name is
  `subject`. When there is no such header, or its value is absent or empty,
  the subject is `'No Subject'`.
- The content is picked by a three-way rule. A `text/plain` payload gives its
  decoded body. A payload with a `parts` field gives the search result, which
  may be `''`. Any other payload keeps `'No content'`.
- The catch block answers `{subject: 'Error', content: 'Could not fetch email
  content'}`. The model takes this path when the remote call fails. It also
  takes it when the payload's shape makes the code throw a `TypeError`: the
  payload has no `headers` array, or a `text/plain` payload has no body for
  `decodeBody` to read `data` from.

The base64/UTF-8 decoding (`Buffer.from(data, 'base64').toString('utf-8')`)
is a foreign call. Every function takes it as a parameter `dec: string ->
string` and assumes nothing about it. The remote call itself is the `Fetch`
value handed to `GetEmailDetails`: either the payload or a failure.

Files:

- `wrappers.dfy`: `Option`, the model of `undefined`.
- `message_parts.dfy`: the part tree (`Part`, `Body`, `Header`, `Children`),
  JavaScript truthiness of `body.data`, and `AllParts`, the pre-order list of
  every part of a tree.
- `text_plain.dfy`: `DecodeBody`, `GetTextPlain` and its loop
  `FirstNonEmpty`. It also has a flat reference definition: `Candidates` lists
  the parts the search may answer from, and `FirstYield` takes the first
  non-empty yield from that list. The lemmas tie the search to the reference.
- `email_details.dfy`: the subject lookup, the content selection and the
  whole step with its error fallback.

A multipart payload with no `text/plain` text gets `''` as content, not
`'No content'` (`MultipartWithoutTextIsEmpty`).

## Model

| member | source | states |
|---|---|---|
| `TextPlainSearch.DecodeBody` | script.js:120-125 | the result is empty exactly when `data` is absent or empty or decodes to empty; a non-empty result is the decoding of `data` |
| `TextPlainSearch.GetTextPlain` | script.js:127-138 | a non-empty result is the decoding of the truthy `data` of some `text/plain` part of the tree that has a body; which part it is, and when the result is empty, is stated by `SearchIsFirstCandidate`, `GetTextPlainFirstInPreOrder`, `GetTextPlainEmpty` and `PlainPartIgnoresChildren` |
| `TextPlainSearch.FirstNonEmpty` | script.js:132-137 | a non-empty answer of the loop over the children is the decoding of the truthy `data` of a `text/plain` part of one of the children's trees; the order of the loop is stated by `FirstNonEmptySpec` and `FirstNonEmptyAppend` |
| `TextPlainSearch.FirstNonEmptySpec` | script.js:131-137 | the loop over the children answers `''` exactly when every child answers `''`; otherwise it answers with child k's answer, where every child before k answered `''` |
| `TextPlainSearch.SearchIsFirstCandidate` | script.js:127-138 | getTextPlain equals the first non-empty decoded body among the tree's candidates, taken in pre-order without descending below a `text/plain` part that has a body |
| `TextPlainSearch.SearchChildrenIsFirstCandidate` | script.js:131-137 | the loop over the children equals the first non-empty decoded body among the children's candidates, child after child |
| `TextPlainSearch.GetTextPlainEmpty` | script.js:131-137 | the result is `''` exactly when every candidate decodes to `''`; in particular it is `''` when no `text/plain` part anywhere in the tree yields text, an empty `parts` array included |
| `TextPlainSearch.GetTextPlainFirstInPreOrder` | script.js:127-138 | a non-empty result comes from the first candidate in pre-order that decodes to non-empty text |
| `TextPlainSearch.PlainPartIgnoresChildren` | script.js:128-130 | a `text/plain` part with a body answers with its own decoded body whatever its children are, even when that answer is `''` |
| `TextPlainSearch.FirstNonEmptyAppend` | script.js:132-135 | once a child has answered, later children do not affect the result; if none of the first children answers, the result is that of the remaining children |
| `TextPlainSearch.GetTextPlainDependsOnlyOnTree` | script.js:120-138 | the search is a pure function of the tree: two decoders that agree on the tree's truthy `data` strings give the same result |
| `EmailDetails.ToLower` | script.js:117 | lower-casing keeps the length, maps each character on its own, and leaves no upper-case ASCII letter |
| `EmailDetails.IsSubjectName` | script.js:117 | the predicate handed to `find`: the lower-cased header name equals `subject`; `SubjectNameIgnoresCase` states which names match |
| `EmailDetails.SubjectNameIgnoresCase` | script.js:117 | a header name matches exactly when it spells `subject` in any mix of ASCII upper and lower case |
| `EmailDetails.FindSubjectHeader` | script.js:117 | `find` returns nothing exactly when no header name matches; otherwise it returns the header at the first matching position |
| `EmailDetails.Subject` | script.js:117 | the subject is never empty; it is `'No Subject'` when no header matches; otherwise it is the first matching header's value when that value is truthy, and `'No Subject'` when it is not |
| `EmailDetails.SubjectSound` | script.js:117 | the subject is `'No Subject'` or the value of a header whose name matches |
| `EmailDetails.SelectContent` | script.js:140-144 | content selection throws exactly when the payload is `text/plain` and has no body |
| `EmailDetails.ContentIsSearchUnlessDefault` | script.js:140-144 | a `text/plain` payload with a body and a non-`text/plain` payload with `parts` both get what getTextPlain finds from the root; a non-`text/plain` payload without `parts` gets `'No content'` |
| `EmailDetails.MultipartWithoutTextIsEmpty` | script.js:142-143 | a multipart payload in which no `text/plain` part yields text gets `''`, not `'No content'` |
| `EmailDetails.ContentSound` | script.js:140-144 | the content is `'No content'`, `''`, or the decoding of the truthy `data` of a `text/plain` part of the message |
| `EmailDetails.Throws` | script.js:110-150 | the three ways into the catch block: the call to users.messages.get fails, the payload has no `headers` array for `find`, or a `text/plain` payload has no body for `decodeBody` to read `data` from; `GetEmailDetails` states that each gives the catch block's record |
| `EmailDetails.GetEmailDetails` | script.js:116-150 | a thrown case gives the catch block's record `{'Error', 'Could not fetch email content'}`; otherwise the subject is never empty, is `'No Subject'` when no header matches, and is the first matching header's value when truthy (`'No Subject'` when not); the content is what getTextPlain finds from the root for a `text/plain` or multipart payload, `'No content'` for any other payload, and in all cases `'No content'`, `''` or the decoded truthy `data` of a `text/plain` part of the message |
| `EmailDetails.DetailsSound` | script.js:116-150 | end to end, the subject is `'Error'`, `'No Subject'` or a matching header's value, and the content is the error text, `'No content'`, `''` or a decoded `text/plain` body of the message |
| `EmailDetails.DetailsDependOnlyOnMessage` | script.js:116-146 | the details are a pure function of the fetched message: decoders that agree on its truthy `data` strings give the same record |

## Left out

- OAuth token acquisition (`getNewToken`, `authorize`): an HTTP listener, a race with standard input, token files and the Google client library. This is I/O and concurrency.
- The Gmail API wrappers `getInbox`, `getLabels`, `labelEmail` and the `users.messages.get` call itself. These are network calls. The call's outcome enters the model only as the `Fetch` value.
- `printLabels` and `main`: console output and orchestration.
- The base64url/UTF-8 decoding done by Node's `Buffer`. It is a foreign call and stays the decoder parameter `dec`. Nothing is assumed about it, so the model says nothing about malformed base64.
- EmailDetails.ToLower: lowers only the ASCII letters A-Z. The other case mappings of `String.prototype.toLowerCase` are not modelled. No non-ASCII character lower-cases to a letter of `subject`, so the outcome of the header match is the same.
- A header without a `name`, a `null` or `undefined` entry in a `parts` array, and a missing `payload`. Each makes the code throw into the catch block, but a nameless header or a bad `parts` entry does so only when `find` or the search reaches it: `find` stops at the first match, and the loop stops at the first child that answers. A primitive `parts` entry such as `"x"` or `5` does not throw; it has no `mimeType` and no `parts`, so it answers `''`. The model's types rule all of these out, except that a missing payload can be stood for by `FetchFailed`.
- The `console.error` call in the catch block: console output. The model keeps only the record the catch block returns.
- A missing `mimeType` is the empty string in the model. It compares unequal to `text/plain`, as `undefined` does.
