/**
 * The text the analyser looks at: the Subject header, a space, and the body,
 * where the body of a multipart message is the concatenation of its
 * `text/plain` parts in walk order (the pre-order traversal of the MIME tree
 * of RFC 2046 section 5.1) and the body of a single-part message is its one
 * payload. Parsing and charset decoding are done before this point: every
 * leaf already holds its decoded text.
 */
module Extract {
  import opened Wrappers

  const TextPlain: string := "text/plain"

  /** A MIME entity as the email parser hands it over. */
  datatype Entity =
    | Leaf(contentType: string, payload: string)
    | Container(contentType: string, parts: seq<Entity>)

  /** A parsed message: its Subject header, if any, and its top-level entity. */
  datatype Message = Message(subject: Option<string>, root: Entity)

  /**
   * The one way body extraction fails: a walked `text/plain` entity that is
   * itself a container has no decodable payload, and decoding `None` raises.
   */
  datatype ExtractError = NoPayload

  /** The pre-order walk of an entity: itself, then the walk of each part in order. */
  function Walk(e: Entity): (nodes: seq<Entity>)
    ensures |nodes| >= 1 && nodes[0] == e
    decreases e, 1
  {
    match e
    case Leaf(_, _) => [e]
    case Container(_, ps) => [e] + WalkAll(ps)
  }

  /** The walks of a sequence of sibling parts, one after the other. */
  function WalkAll(ps: seq<Entity>): seq<Entity>
    decreases ps, 0
  {
    if ps == [] then [] else Walk(ps[0]) + WalkAll(ps[1..])
  }

  /** What one walked entity adds to the body: its payload when it is a `text/plain` leaf. */
  function Contribution(e: Entity): string
  {
    if e.Leaf? && e.contentType == TextPlain then e.payload else ""
  }

  /** The walked entity would make decoding fail. */
  predicate Undecodable(e: Entity)
  {
    e.Container? && e.contentType == TextPlain
  }

  predicate Decodable(nodes: seq<Entity>)
  {
    forall i :: 0 <= i < |nodes| ==> !Undecodable(nodes[i])
  }

  /** The concatenated contributions of `nodes`, left to right. */
  function PlainText(nodes: seq<Entity>): string
  {
    if nodes == [] then "" else PlainText(nodes[..|nodes| - 1]) + Contribution(nodes[|nodes| - 1])
  }

  /** The body of a message whose top-level entity is `e`. */
  function Body(e: Entity): Result<string, ExtractError>
  {
    if e.Leaf? then Success(e.payload)
    else if Decodable(Walk(e)) then Success(PlainText(Walk(e)))
    else Failure(NoPayload)
  }

  /** The Subject header, or the empty string when it is absent. */
  function Subject(m: Message): string
  {
    m.subject.GetOr("")
  }

  /** The analysed text: subject, one space, body. */
  function Text(m: Message): Result<string, ExtractError>
  {
    match Body(m.root)
    case Success(body) => Success(Subject(m) + " " + body)
    case Failure(err) => Failure(err)
  }

  /** The text exists exactly when the body does, and reads: the subject, one space, the body. */
  lemma TextShape(m: Message)
    ensures Text(m).Success? <==> Body(m.root).Success?
    ensures Text(m).Success? ==>
      && |Text(m).value| == |Subject(m)| + 1 + |Body(m.root).value|
      && Text(m).value[..|Subject(m)|] == Subject(m)
      && Text(m).value[|Subject(m)|] == ' '
      && Text(m).value[|Subject(m)| + 1..] == Body(m.root).value
  {
  }

  /** Builds the body the way the analyser does: one pass over the walk, appending each `text/plain` payload. */
  method ExtractBody(e: Entity) returns (r: Result<string, ExtractError>)
    ensures r == Body(e)
  {
    if e.Leaf? {
      return Success(e.payload);
    }
    var nodes := Walk(e);
    var body := "";
    var i := 0;
    while i < |nodes|
      invariant 0 <= i <= |nodes|
      invariant Decodable(nodes[..i])
      invariant body == PlainText(nodes[..i])
    {
      var part := nodes[i];
      if part.contentType == TextPlain {
        if part.Container? {
          assert Undecodable(nodes[i]);
          return Failure(NoPayload);
        }
        body := body + part.payload;
      }
      assert nodes[..i + 1][..i] == nodes[..i];
      i := i + 1;
    }
    assert nodes[..i] == nodes;
    return Success(body);
  }

  /** Subject, space and body, or the extraction error. */
  method ExtractText(m: Message) returns (r: Result<string, ExtractError>)
    ensures r == Text(m)
  {
    var body := ExtractBody(m.root);
    match body
    case Success(b) => r := Success(Subject(m) + " " + b);
    case Failure(err) => r := Failure(err);
  }

  /** A single-part message's body is its payload, whatever its content type. */
  lemma SinglePartBody(contentType: string, payload: string)
    ensures Body(Leaf(contentType, payload)) == Success(payload)
  {
  }

  /** The body of a concatenation of walks is the concatenation of their bodies. */
  lemma {:induction false} PlainTextAppend(a: seq<Entity>, b: seq<Entity>)
    ensures PlainText(a + b) == PlainText(a) + PlainText(b)
    decreases |b|
  {
    if b == [] {
      assert a + b == a;
    } else {
      var b', x := b[..|b| - 1], b[|b| - 1];
      assert (a + b)[..|a + b| - 1] == a + b';
      assert (a + b)[|a + b| - 1] == x;
      PlainTextAppend(a, b');
      assert PlainText(a + b) == PlainText(a + b') + Contribution(x);
      assert PlainText(b) == PlainText(b') + Contribution(x);
    }
  }

  /** An entity that is not a `text/plain` leaf contributes nothing: dropping it leaves the body unchanged. */
  lemma OthersContributeNothing(pre: seq<Entity>, x: Entity, post: seq<Entity>)
    requires !(x.Leaf? && x.contentType == TextPlain)
    ensures PlainText(pre + [x] + post) == PlainText(pre + post)
  {
    assert PlainText(pre + [x]) == PlainText(pre) by {
      assert PlainText([x]) == "" by {
        assert [x][..0] == [];
      }
      PlainTextAppend(pre, [x]);
    }
    PlainTextAppend(pre + [x], post);
    PlainTextAppend(pre, post);
  }

  /** A `text/plain` leaf contributes exactly its payload, at its place in the walk. */
  lemma PlainLeafContributesPayload(pre: seq<Entity>, x: Entity, post: seq<Entity>)
    requires x.Leaf? && x.contentType == TextPlain
    ensures PlainText(pre + [x] + post) == PlainText(pre) + x.payload + PlainText(post)
  {
    assert PlainText(pre + [x]) == PlainText(pre) + x.payload by {
      assert PlainText([x]) == x.payload by {
        assert [x][..0] == [];
      }
      PlainTextAppend(pre, [x]);
    }
    PlainTextAppend(pre + [x], post);
  }

  /** Walking a run of siblings split in two walks each half in turn. */
  lemma {:induction false} WalkAllAppend(ps: seq<Entity>, qs: seq<Entity>)
    ensures WalkAll(ps + qs) == WalkAll(ps) + WalkAll(qs)
    decreases |ps|
  {
    if ps == [] {
      assert ps + qs == qs;
    } else {
      assert (ps + qs)[0] == ps[0];
      assert (ps + qs)[1..] == ps[1..] + qs;
      WalkAllAppend(ps[1..], qs);
    }
  }

  /**
   * The body of a multipart message is the concatenation of the bodies its
   * parts would have as multipart subtrees: parts are visited in order and
   * nested containers are flattened in place.
   */
  lemma SiblingsConcatenate(t: string, ps: seq<Entity>, qs: seq<Entity>)
    ensures PlainText(Walk(Container(t, ps + qs)))
         == PlainText(Walk(Container(t, ps))) + PlainText(WalkAll(qs))
  {
    var c, d := Container(t, ps + qs), Container(t, ps);
    var w, v := WalkAll(ps), WalkAll(qs);
    WalkAllAppend(ps, qs);
    assert Walk(c) == ([c] + w) + v;
    PlainTextAppend([c] + w, v);
    ContainerContributesNothing(c, w);
    ContainerContributesNothing(d, w);
  }

  /** A container at the head of a walk adds nothing to its text. */
  lemma ContainerContributesNothing(c: Entity, w: seq<Entity>)
    requires c.Container?
    ensures PlainText([c] + w) == PlainText(w)
  {
    assert [c][..0] == [];
    PlainTextAppend([c], w);
  }
}
