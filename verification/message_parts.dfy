/**
 * The shape of a message as the Gmail API returns it with `format: 'full'`:
 * a tree of parts, each with a MIME type, an optional body and optional
 * children, and a list of headers on the root part.
 */
module MessageParts {
  import opened Wrappers

  /** The base64 to UTF-8 text decoder the code borrows from Node's `Buffer`. */
  type Decoder = string -> string

  /** A part body; `data` is the base64url payload, or absent. */
  datatype Body = Body(data: Option<string>)

  /** One header line of the message: a name and a (possibly absent) value. */
  datatype Header = Header(name: string, value: Option<string>)

  /** The `parts` field of a part: absent on a leaf, an array (possibly empty) otherwise. */
  datatype Children = Absent | Present(list: seq<Part>)

  /** A node of the part tree. `headers` is read only on the root. */
  datatype Part = Part(
    mimeType: string,
    headers: Option<seq<Header>>,
    body: Option<Body>,
    parts: Children)

  const TextPlain: string := "text/plain"

  /** JavaScript truthiness of `body.data`: present and not the empty string. */
  predicate HasData(b: Body) {
    b.data.Some? && b.data.value != ""
  }

  /** The guard of getTextPlain's first branch: a `text/plain` part with a body object. */
  predicate IsPlainWithBody(p: Part) {
    p.mimeType == TextPlain && p.body.Some?
  }

  /** Every part of the tree, in depth-first pre-order (the root first). */
  function AllParts(p: Part): (r: seq<Part>)
    decreases p
    ensures |r| > 0 && r[0] == p
  {
    [p] + (if p.parts.Present? then AllPartsOf(p.parts.list) else [])
  }

  /** The parts of every tree in `ps`, one tree after the other. */
  function AllPartsOf(ps: seq<Part>): (r: seq<Part>)
    decreases ps
    ensures forall i :: 0 <= i < |ps| ==> ps[i] in r
  {
    if ps == [] then [] else AllParts(ps[0]) + AllPartsOf(ps[1..])
  }
}
