/**
 * The two helpers nested in getEmailDetails: decodeBody, which turns a part
 * body into text, and getTextPlain, the depth-first search for the first
 * `text/plain` part that yields text.
 */
module TextPlainSearch {
  import opened Wrappers
  import opened MessageParts

  /**
   * decodeBody: the decoded payload when `data` is truthy, the empty string
   * otherwise (absent and empty `data` behave alike).
   */
  function DecodeBody(dec: Decoder, b: Body): (r: string)
    ensures r == "" <==> !HasData(b) || dec(b.data.value) == ""
    ensures r != "" ==> r == dec(b.data.value)
  {
    if HasData(b) then dec(b.data.value) else ""
  }

  /**
   * getTextPlain: a `text/plain` part with a body answers with its own decoded
   * body, whatever that is; any other part answers with the first non-empty
   * answer among its children, or the empty string.
   */
  function GetTextPlain(dec: Decoder, p: Part): (r: string)
    decreases p
    ensures r != "" ==>
      exists q :: q in AllParts(p) && IsPlainWithBody(q) && HasData(q.body.value) &&
        r == dec(q.body.value.data.value)
  {
    if IsPlainWithBody(p) then DecodeBody(dec, p.body.value)
    else if p.parts.Present? then FirstNonEmpty(dec, p.parts.list)
    else ""
  }

  /**
   * The `for...of` loop of getTextPlain: the children are asked in order and
   * the first non-empty answer is returned; the loop falls through with "".
   */
  function FirstNonEmpty(dec: Decoder, ps: seq<Part>): (r: string)
    decreases ps
    ensures r != "" ==>
      exists q :: q in AllPartsOf(ps) && IsPlainWithBody(q) && HasData(q.body.value) &&
        r == dec(q.body.value.data.value)
  {
    if ps == [] then ""
    else
      var first := GetTextPlain(dec, ps[0]);
      if first != "" then first else FirstNonEmpty(dec, ps[1..])
  }

  /**
   * The loop answers "" exactly when every child answers ""; otherwise it
   * answers with the answer of child k, and every child before k answered "".
   */
  lemma {:induction false} FirstNonEmptySpec(dec: Decoder, ps: seq<Part>)
    ensures FirstNonEmpty(dec, ps) == "" <==> forall i :: 0 <= i < |ps| ==> GetTextPlain(dec, ps[i]) == ""
    ensures FirstNonEmpty(dec, ps) != "" ==>
      exists k :: 0 <= k < |ps| && FirstNonEmpty(dec, ps) == GetTextPlain(dec, ps[k]) &&
        forall j :: 0 <= j < k ==> GetTextPlain(dec, ps[j]) == ""
  {
    FirstNonEmptyEmpty(dec, ps);
    FirstNonEmptyFirst(dec, ps);
  }

  lemma {:induction false} FirstNonEmptyEmpty(dec: Decoder, ps: seq<Part>)
    decreases ps
    ensures FirstNonEmpty(dec, ps) == "" <==> forall i :: 0 <= i < |ps| ==> GetTextPlain(dec, ps[i]) == ""
  {
    if ps != [] && GetTextPlain(dec, ps[0]) == "" {
      var rest := ps[1..];
      FirstNonEmptyEmpty(dec, rest);
      if FirstNonEmpty(dec, rest) == "" {
        forall i | 0 < i < |ps| ensures GetTextPlain(dec, ps[i]) == "" {
          assert ps[i] == rest[i - 1];
        }
      } else {
        var i :| 0 <= i < |rest| && GetTextPlain(dec, rest[i]) != "";
        assert ps[i + 1] == rest[i];
      }
    }
  }

  lemma {:induction false} FirstNonEmptyFirst(dec: Decoder, ps: seq<Part>)
    decreases ps
    ensures FirstNonEmpty(dec, ps) != "" ==>
      exists k :: 0 <= k < |ps| && FirstNonEmpty(dec, ps) == GetTextPlain(dec, ps[k]) &&
        forall j :: 0 <= j < k ==> GetTextPlain(dec, ps[j]) == ""
  {
    if ps == [] {
      return;
    }
    var r := FirstNonEmpty(dec, ps);
    if GetTextPlain(dec, ps[0]) != "" {
      assert r == GetTextPlain(dec, ps[0]);
      return;
    }
    var rest := ps[1..];
    FirstNonEmptyFirst(dec, rest);
    if r != "" {
      var k :| 0 <= k < |rest| && r == GetTextPlain(dec, rest[k]) &&
        forall j :: 0 <= j < k ==> GetTextPlain(dec, rest[j]) == "";
      assert rest[k] == ps[k + 1];
      forall j | 0 < j < k + 1 ensures GetTextPlain(dec, ps[j]) == "" {
        assert ps[j] == rest[j - 1];
      }
    }
  }

  // ---------------------------------------------------------------------------
  // A flat reference definition of the search.

  /**
   * The parts whose body getTextPlain may return, in the order the search
   * meets them: pre-order, without descending below a `text/plain` part that
   * has a body.
   */
  function Candidates(p: Part): (r: seq<Part>)
    decreases p
  {
    if IsPlainWithBody(p) then [p]
    else if p.parts.Present? then CandidatesOf(p.parts.list)
    else []
  }

  /** The candidates of every tree in `ps`, one tree after the other. */
  function CandidatesOf(ps: seq<Part>): (r: seq<Part>)
    decreases ps
  {
    if ps == [] then [] else Candidates(ps[0]) + CandidatesOf(ps[1..])
  }

  /** The text a candidate part contributes: its decoded body. */
  function Yield(dec: Decoder, q: Part): string {
    if IsPlainWithBody(q) then DecodeBody(dec, q.body.value) else ""
  }

  /** The first non-empty yield of a flat list of parts, or "". */
  function FirstYield(dec: Decoder, cs: seq<Part>): (r: string)
    decreases cs
  {
    if cs == [] then ""
    else if Yield(dec, cs[0]) != "" then Yield(dec, cs[0])
    else FirstYield(dec, cs[1..])
  }

  /**
   * The first yield is "" exactly when every yield is ""; otherwise it is the
   * yield of entry k, and every entry before k yields "".
   */
  lemma {:induction false} FirstYieldSpec(dec: Decoder, cs: seq<Part>)
    decreases cs
    ensures FirstYield(dec, cs) == "" <==> forall i :: 0 <= i < |cs| ==> Yield(dec, cs[i]) == ""
    ensures FirstYield(dec, cs) != "" ==>
      exists k :: 0 <= k < |cs| && FirstYield(dec, cs) == Yield(dec, cs[k]) &&
        forall j :: 0 <= j < k ==> Yield(dec, cs[j]) == ""
  {
    if cs != [] && Yield(dec, cs[0]) == "" {
      FirstYieldSpec(dec, cs[1..]);
      assert forall i :: 1 <= i < |cs| ==> cs[i] == cs[1..][i - 1];
      if FirstYield(dec, cs) != "" {
        var k :| 0 <= k < |cs[1..]| && FirstYield(dec, cs[1..]) == Yield(dec, cs[1..][k]) &&
          forall j :: 0 <= j < k ==> Yield(dec, cs[1..][j]) == "";
        assert FirstYield(dec, cs) == Yield(dec, cs[k + 1]);
      }
    }
  }

  lemma {:induction false} FirstYieldAppend(dec: Decoder, a: seq<Part>, b: seq<Part>)
    decreases a
    ensures FirstYield(dec, a + b) ==
      if FirstYield(dec, a) != "" then FirstYield(dec, a) else FirstYield(dec, b)
  {
    if a == [] {
      assert a + b == b;
    } else {
      assert (a + b)[0] == a[0];
      assert (a + b)[1..] == a[1..] + b;
      FirstYieldAppend(dec, a[1..], b);
    }
  }

  // ---------------------------------------------------------------------------
  // The search against the reference.

  /** getTextPlain returns the first non-empty yield among the candidates of the tree. */
  lemma {:induction false} SearchIsFirstCandidate(dec: Decoder, p: Part)
    decreases p
    ensures GetTextPlain(dec, p) == FirstYield(dec, Candidates(p))
  {
    if IsPlainWithBody(p) {
      assert Candidates(p) == [p];
      assert FirstYield(dec, [p][1..]) == "";
    } else if p.parts.Present? {
      SearchChildrenIsFirstCandidate(dec, p.parts.list);
    }
  }

  /** The loop over the children returns the first non-empty yield among their candidates. */
  lemma {:induction false} SearchChildrenIsFirstCandidate(dec: Decoder, ps: seq<Part>)
    decreases ps
    ensures FirstNonEmpty(dec, ps) == FirstYield(dec, CandidatesOf(ps))
  {
    if ps != [] {
      SearchIsFirstCandidate(dec, ps[0]);
      SearchChildrenIsFirstCandidate(dec, ps[1..]);
      FirstYieldAppend(dec, Candidates(ps[0]), CandidatesOf(ps[1..]));
    }
  }

  /** Every candidate is a `text/plain` part with a body, and a part of the tree. */
  lemma {:induction false} CandidatesArePlainParts(p: Part)
    decreases p
    ensures forall q :: q in Candidates(p) ==> IsPlainWithBody(q) && q in AllParts(p)
  {
    if !IsPlainWithBody(p) && p.parts.Present? {
      CandidatesOfArePlainParts(p.parts.list);
    }
  }

  lemma {:induction false} CandidatesOfArePlainParts(ps: seq<Part>)
    decreases ps
    ensures forall q :: q in CandidatesOf(ps) ==> IsPlainWithBody(q) && q in AllPartsOf(ps)
  {
    if ps != [] {
      CandidatesArePlainParts(ps[0]);
      CandidatesOfArePlainParts(ps[1..]);
    }
  }

  // ---------------------------------------------------------------------------
  // What the search promises.

  /**
   * The search answers "" exactly when every candidate decodes to "", and in
   * particular when no `text/plain` part anywhere in the tree yields text
   * (a multipart node with an empty `parts` array included).
   */
  lemma GetTextPlainEmpty(dec: Decoder, p: Part)
    ensures GetTextPlain(dec, p) == "" <==>
      forall i :: 0 <= i < |Candidates(p)| ==> Yield(dec, Candidates(p)[i]) == ""
    ensures (forall q :: q in AllParts(p) && IsPlainWithBody(q) ==> DecodeBody(dec, q.body.value) == "")
      ==> GetTextPlain(dec, p) == ""
  {
    SearchIsFirstCandidate(dec, p);
    CandidatesArePlainParts(p);
    var cs := Candidates(p);
    FirstYieldSpec(dec, cs);
    forall i | 0 <= i < |cs| ensures cs[i] in AllParts(p) {
      assert cs[i] in cs;
    }
  }

  /**
   * Order: a non-empty result comes from the first candidate, in pre-order,
   * that decodes to non-empty text; every earlier candidate decoded to "".
   */
  lemma GetTextPlainFirstInPreOrder(dec: Decoder, p: Part)
    ensures GetTextPlain(dec, p) != "" ==>
      exists k :: 0 <= k < |Candidates(p)| &&
        GetTextPlain(dec, p) == Yield(dec, Candidates(p)[k]) &&
        forall j :: 0 <= j < k ==> Yield(dec, Candidates(p)[j]) == ""
  {
    SearchIsFirstCandidate(dec, p);
    FirstYieldSpec(dec, Candidates(p));
  }

  /**
   * A `text/plain` part with a body answers with its own decoded body and its
   * children are never examined, even when that answer is "".
   */
  lemma PlainPartIgnoresChildren(dec: Decoder, p: Part, children: Children)
    requires IsPlainWithBody(p)
    ensures GetTextPlain(dec, p.(parts := children)) == DecodeBody(dec, p.body.value)
  {
  }

  /**
   * Once a child has answered, later children do not matter: the loop over
   * `ps + qs` returns the answer from `ps` when there is one, and otherwise
   * the answer from `qs`.
   */
  lemma {:induction false} FirstNonEmptyAppend(dec: Decoder, ps: seq<Part>, qs: seq<Part>)
    decreases ps
    ensures FirstNonEmpty(dec, ps + qs) ==
      if FirstNonEmpty(dec, ps) != "" then FirstNonEmpty(dec, ps) else FirstNonEmpty(dec, qs)
  {
    if ps == [] {
      assert ps + qs == qs;
    } else {
      assert (ps + qs)[0] == ps[0];
      assert (ps + qs)[1..] == ps[1..] + qs;
      FirstNonEmptyAppend(dec, ps[1..], qs);
    }
  }

  lemma {:induction false} FirstYieldAgree(dec1: Decoder, dec2: Decoder, cs: seq<Part>)
    requires forall i :: 0 <= i < |cs| ==> Yield(dec1, cs[i]) == Yield(dec2, cs[i])
    decreases cs
    ensures FirstYield(dec1, cs) == FirstYield(dec2, cs)
  {
    if cs != [] {
      FirstYieldAgree(dec1, dec2, cs[1..]);
    }
  }

  /**
   * The search is a function of the tree alone: two decoders that agree on
   * every truthy `data` string in the tree give the same answer.
   */
  lemma GetTextPlainDependsOnlyOnTree(dec1: Decoder, dec2: Decoder, p: Part)
    requires forall q :: q in AllParts(p) && q.body.Some? && HasData(q.body.value) ==>
      dec1(q.body.value.data.value) == dec2(q.body.value.data.value)
    ensures GetTextPlain(dec1, p) == GetTextPlain(dec2, p)
  {
    SearchIsFirstCandidate(dec1, p);
    SearchIsFirstCandidate(dec2, p);
    CandidatesArePlainParts(p);
    var cs := Candidates(p);
    forall i | 0 <= i < |cs| ensures Yield(dec1, cs[i]) == Yield(dec2, cs[i]) {
      assert cs[i] in cs;
    }
    FirstYieldAgree(dec1, dec2, cs);
  }
}
