/** The tree of a message's parts: a recursive definition, and the walk with a stack of its own. */
module BodyStructure {
  import opened Wrappers
  import opened Sequences

  /** A parsed message. Its parts are numbered; a multipart names its parts by number, and a part can
      be a whole message. F stands for what is told of a part, E for the envelope. */
  datatype Message<F, E> = Message(envelope: E, parts: seq<Part<F, E>>)

  datatype Part<F, E> =
    | Leaf(fields: F, isText: bool)
    | Multipart(fields: F, subparts: seq<nat>)
    | Nested(fields: F, message: Message<F, E>)

  datatype BodyPart<F, E> =
    | MultipartBody(fields: F, parts: seq<BodyPart<F, E>>)
    | BasicBody(fields: F)
    | TextBody(fields: F)
    | MessageBody(fields: F, envelope: Option<E>, body: Option<BodyPart<F, E>>)

  /** A message has a part 0, and the parts of a multipart come after it. */
  predicate WellFormed<F, E>(m: Message<F, E>)
    decreases m
  {
    && |m.parts| > 0
    && forall i :: 0 <= i < |m.parts| ==>
        && (m.parts[i].Multipart? ==> forall j :: 0 <= j < |m.parts[i].subparts| ==> i < m.parts[i].subparts[j] < |m.parts|)
        && (m.parts[i].Nested? ==> WellFormed(m.parts[i].message))
  }

  predicate ValidIds<F, E>(m: Message<F, E>, ids: seq<nat>) {
    forall i :: 0 <= i < |ids| ==> ids[i] < |m.parts|
  }

  // ----- The recursive definition -----

  function Structure<F, E>(m: Message<F, E>, id: nat): BodyPart<F, E>
    requires WellFormed(m) && id < |m.parts|
    decreases m, |m.parts| - id, if m.parts[id].Multipart? then |m.parts[id].subparts| + 1 else 0
  {
    match m.parts[id]
    case Leaf(fields, isText) => if isText then TextBody(fields) else BasicBody(fields)
    case Multipart(fields, subparts) => MultipartBody(fields, Structures(m, id, subparts))
    case Nested(fields, message) => MessageBody(fields, Some(message.envelope), Some(Structure(message, 0)))
  }

  /** Parts that come after part `after`. */
  function Structures<F, E>(m: Message<F, E>, after: nat, ids: seq<nat>): seq<BodyPart<F, E>>
    requires WellFormed(m) && after < |m.parts| && forall i :: 0 <= i < |ids| ==> after < ids[i] < |m.parts|
    decreases m, |m.parts| - after, |ids|
  {
    if ids == [] then [] else [Structure(m, ids[0])] + Structures(m, after, ids[1..])
  }

  /** The same for any parts. */
  function All<F, E>(m: Message<F, E>, ids: seq<nat>): seq<BodyPart<F, E>>
    requires WellFormed(m) && ValidIds(m, ids)
    decreases |ids|
  {
    if ids == [] then [] else [Structure(m, ids[0])] + All(m, ids[1..])
  }

  lemma {:induction false} StructuresAreAll<F, E>(m: Message<F, E>, after: nat, ids: seq<nat>)
    requires WellFormed(m) && after < |m.parts| && forall i :: 0 <= i < |ids| ==> after < ids[i] < |m.parts|
    ensures Structures(m, after, ids) == All(m, ids)
    decreases |ids|
  {
    if ids != [] {
      StructuresAreAll(m, after, ids[1..]);
    }
  }

  // ----- What the tree says of the message -----

  /** `body` is the part numbered `id`: of the same kind, with its own fields, and with the parts below
      it in their order. */
  ghost predicate Describes<F, E>(m: Message<F, E>, id: nat, body: BodyPart<F, E>)
    requires WellFormed(m) && id < |m.parts|
    decreases body
  {
    match body
    case TextBody(fields) => m.parts[id] == Leaf(fields, true)
    case BasicBody(fields) => m.parts[id] == Leaf(fields, false)
    case MultipartBody(fields, parts) =>
      && m.parts[id].Multipart? && m.parts[id].fields == fields && |parts| == |m.parts[id].subparts|
      && forall i :: 0 <= i < |parts| ==> Describes(m, m.parts[id].subparts[i], parts[i])
    case MessageBody(fields, envelope, inner) =>
      && m.parts[id].Nested? && m.parts[id].fields == fields && envelope == Some(m.parts[id].message.envelope)
      && inner.Some? && Describes(m.parts[id].message, 0, inner.value)
  }

  lemma {:induction false} StructureDescribes<F, E>(m: Message<F, E>, id: nat)
    requires WellFormed(m) && id < |m.parts|
    ensures Describes(m, id, Structure(m, id))
    decreases m, |m.parts| - id
  {
    match m.parts[id]
    case Leaf(_, _) =>
    case Multipart(_, subparts) =>
      StructuresAt(m, id, subparts);
      forall i | 0 <= i < |subparts|
        ensures Describes(m, subparts[i], Structure(m, id).parts[i])
      {
        StructureDescribes(m, subparts[i]);
      }
    case Nested(_, message) => StructureDescribes(message, 0);
  }

  lemma {:induction false} StructuresAt<F, E>(m: Message<F, E>, after: nat, ids: seq<nat>)
    requires WellFormed(m) && after < |m.parts| && forall i :: 0 <= i < |ids| ==> after < ids[i] < |m.parts|
    ensures |Structures(m, after, ids)| == |ids|
    ensures forall i :: 0 <= i < |ids| ==> Structures(m, after, ids)[i] == Structure(m, ids[i])
    decreases |ids|
  {
    if ids != [] {
      StructuresAt(m, after, ids[1..]);
    }
  }

  /** No two trees describe the same part. */
  lemma {:induction false} DescriptionUnique<F, E>(m: Message<F, E>, id: nat, a: BodyPart<F, E>, b: BodyPart<F, E>)
    requires WellFormed(m) && id < |m.parts| && Describes(m, id, a) && Describes(m, id, b)
    ensures a == b
    decreases a
  {
    match m.parts[id]
    case Leaf(_, _) =>
    case Multipart(_, subparts) =>
      forall i | 0 <= i < |subparts|
        ensures a.parts[i] == b.parts[i]
      {
        DescriptionUnique(m, subparts[i], a.parts[i], b.parts[i]);
      }
    case Nested(_, message) => DescriptionUnique(message, 0, a.body.value, b.body.value);
  }

  /** The structure of a part is the one tree that describes it. */
  lemma StructureIff<F, E>(m: Message<F, E>, id: nat, body: BodyPart<F, E>)
    requires WellFormed(m) && id < |m.parts|
    ensures Describes(m, id, body) <==> body == Structure(m, id)
  {
    StructureDescribes(m, id);
    if Describes(m, id, body) {
      DescriptionUnique(m, id, body, Structure(m, id));
    }
  }

  // ----- The parts of the walk -----

  /** A part by itself: a multipart or a message is still empty. */
  function AsBodyPart<F, E>(m: Message<F, E>, id: nat): BodyPart<F, E>
    requires id < |m.parts|
  {
    match m.parts[id]
    case Leaf(fields, isText) => if isText then TextBody(fields) else BasicBody(fields)
    case Multipart(fields, _) => MultipartBody(fields, [])
    case Nested(fields, _) => MessageBody(fields, None, None)
  }

  function AddPart<F, E>(parent: BodyPart<F, E>, part: BodyPart<F, E>): BodyPart<F, E> {
    match parent
    case MultipartBody(fields, parts) => MultipartBody(fields, parts + [part])
    case MessageBody(fields, envelope, _) => MessageBody(fields, envelope, Some(part))
    case _ => parent
  }

  function SetEnvelope<F, E>(part: BodyPart<F, E>, envelope: E): BodyPart<F, E> {
    if part.MessageBody? then part.(envelope := Some(envelope)) else part
  }

  function AddAll<F, E>(parent: BodyPart<F, E>, parts: seq<BodyPart<F, E>>): BodyPart<F, E>
    decreases |parts|
  {
    if parts == [] then parent else AddAll(AddPart(parent, parts[0]), parts[1..])
  }

  lemma {:induction false} AddAllToMultipart<F, E>(fields: F, before: seq<BodyPart<F, E>>, parts: seq<BodyPart<F, E>>)
    ensures AddAll(MultipartBody(fields, before), parts) == MultipartBody(fields, before + parts)
    decreases |parts|
  {
    if parts == [] {
      EmptyRight(before);
    } else {
      AddAllToMultipart(fields, before + [parts[0]], parts[1..]);
      Associative(before, [parts[0]], parts[1..]);
      assert parts == [parts[0]] + parts[1..];
    }
  }

  /** What is left to do once the innermost part is complete. */
  datatype Frame<F, E> = Frame(root: BodyPart<F, E>, parts: seq<nat>, message: Option<Message<F, E>>)

  /** A frame without a message goes on with the current one. */
  function MessageOf<F, E>(f: Frame<F, E>, current: Message<F, E>): Message<F, E> {
    if f.message.Some? then f.message.value else current
  }

  predicate StackValid<F, E>(stack: seq<Frame<F, E>>, current: Message<F, E>)
    decreases |stack|
  {
    stack == [] ||
    var f := stack[|stack| - 1];
    var m := MessageOf(f, current);
    WellFormed(m) && ValidIds(m, f.parts) && StackValid(stack[..|stack| - 1], m)
  }

  /** The tree that a finished part and the stack amount to. */
  function Unwind<F, E>(part: BodyPart<F, E>, stack: seq<Frame<F, E>>, current: Message<F, E>): BodyPart<F, E>
    requires StackValid(stack, current)
    decreases |stack|
  {
    if stack == [] then part
    else
      var f := stack[|stack| - 1];
      var m := MessageOf(f, current);
      Unwind(AddAll(AddPart(f.root, part), All(m, f.parts)), stack[..|stack| - 1], m)
  }

  ghost predicate WalkValid<F, E>(parts: seq<nat>, stack: seq<Frame<F, E>>, message: Message<F, E>) {
    WellFormed(message) && ValidIds(message, parts) && StackValid(stack, message)
  }

  /** The tree that the walk is on the way to. */
  ghost function Outcome<F, E>(root: BodyPart<F, E>, parts: seq<nat>, stack: seq<Frame<F, E>>, message: Message<F, E>): BodyPart<F, E>
    requires WalkValid(parts, stack, message)
  {
    Unwind(AddAll(root, All(message, parts)), stack, message)
  }

  lemma StackPush<F, E>(stack: seq<Frame<F, E>>, f: Frame<F, E>, current: Message<F, E>, part: BodyPart<F, E>)
    requires WellFormed(MessageOf(f, current)) && ValidIds(MessageOf(f, current), f.parts) && StackValid(stack, MessageOf(f, current))
    ensures StackValid(stack + [f], current)
    ensures Unwind(part, stack + [f], current)
         == Unwind(AddAll(AddPart(f.root, part), All(MessageOf(f, current), f.parts)), stack, MessageOf(f, current))
  {
    assert (stack + [f])[..|stack|] == stack;
  }

  lemma LeafStep<F, E>(root: BodyPart<F, E>, parts: seq<nat>, stack: seq<Frame<F, E>>, message: Message<F, E>)
    requires WalkValid(parts, stack, message) && parts != [] && message.parts[parts[0]].Leaf?
    ensures WalkValid(parts[1..], stack, message)
    ensures Outcome(AddPart(root, AsBodyPart(message, parts[0])), parts[1..], stack, message) == Outcome(root, parts, stack, message)
  {
  }

  /** A multipart without its parts, then its parts: the multipart. */
  lemma OpenMultipart<F, E>(m: Message<F, E>, id: nat)
    requires WellFormed(m) && id < |m.parts| && m.parts[id].Multipart?
    ensures ValidIds(m, m.parts[id].subparts)
    ensures AddAll(AsBodyPart(m, id), All(m, m.parts[id].subparts)) == Structure(m, id)
  {
    var subparts := m.parts[id].subparts;
    StructuresAreAll(m, id, subparts);
    AddAllToMultipart<F, E>(m.parts[id].fields, [], All(m, subparts));
    EmptyLeft(All(m, subparts));
  }

  lemma OpenNested<F, E>(m: Message<F, E>, id: nat)
    requires WellFormed(m) && id < |m.parts| && m.parts[id].Nested?
    ensures var nested := m.parts[id].message;
            && WellFormed(nested) && ValidIds(nested, [0])
            && AddAll(SetEnvelope(AsBodyPart(m, id), nested.envelope), All(nested, [0])) == Structure(m, id)
  {
    var nested := m.parts[id].message;
    var x := Structure(nested, 0);
    assert All(nested, [0]) == [x];
    assert [x][1..] == [];
    var parent := SetEnvelope(AsBodyPart(m, id), nested.envelope);
    assert AddAll(AddPart(parent, x), []) == AddPart(parent, x);
  }

  lemma MultipartStep<F, E>(root: BodyPart<F, E>, parts: seq<nat>, stack: seq<Frame<F, E>>, message: Message<F, E>)
    requires WalkValid(parts, stack, message) && parts != [] && message.parts[parts[0]].Multipart?
    ensures var subparts := message.parts[parts[0]].subparts;
            var stack' := stack + [Frame(root, parts[1..], None)];
            && WalkValid(subparts, stack', message)
            && Outcome(AsBodyPart(message, parts[0]), subparts, stack', message) == Outcome(root, parts, stack, message)
  {
    OpenMultipart(message, parts[0]);
    StackPush(stack, Frame(root, parts[1..], None), message, Structure(message, parts[0]));
  }

  lemma NestedStep<F, E>(root: BodyPart<F, E>, parts: seq<nat>, stack: seq<Frame<F, E>>, message: Message<F, E>)
    requires WalkValid(parts, stack, message) && parts != [] && message.parts[parts[0]].Nested?
    ensures var nested := message.parts[parts[0]].message;
            var stack' := stack + [Frame(root, parts[1..], Some(message))];
            && WalkValid([0], stack', nested)
            && Outcome(SetEnvelope(AsBodyPart(message, parts[0]), nested.envelope), [0], stack', nested) == Outcome(root, parts, stack, message)
  {
    OpenNested(message, parts[0]);
    StackPush(stack, Frame(root, parts[1..], Some(message)), message.parts[parts[0]].message, Structure(message, parts[0]));
  }

  lemma PopStep<F, E>(root: BodyPart<F, E>, stack: seq<Frame<F, E>>, message: Message<F, E>)
    requires WalkValid([], stack, message) && stack != []
    ensures var f := stack[|stack| - 1];
            && WalkValid(f.parts, stack[..|stack| - 1], MessageOf(f, message))
            && Outcome(AddPart(f.root, root), f.parts, stack[..|stack| - 1], MessageOf(f, message)) == Outcome(root, [], stack, message)
  {
  }

  // ----- It ends -----

  /** The steps that a part takes. */
  function Steps<F, E>(m: Message<F, E>, id: nat): nat
    requires WellFormed(m) && id < |m.parts|
    decreases m, |m.parts| - id, if m.parts[id].Multipart? then |m.parts[id].subparts| + 1 else 0
  {
    match m.parts[id]
    case Leaf(_, _) => 1
    case Multipart(_, subparts) => 2 + StepsAfter(m, id, subparts)
    case Nested(_, message) => 2 + Steps(message, 0)
  }

  function StepsAfter<F, E>(m: Message<F, E>, after: nat, ids: seq<nat>): nat
    requires WellFormed(m) && after < |m.parts| && forall i :: 0 <= i < |ids| ==> after < ids[i] < |m.parts|
    decreases m, |m.parts| - after, |ids|
  {
    if ids == [] then 0 else Steps(m, ids[0]) + StepsAfter(m, after, ids[1..])
  }

  function StepsOf<F, E>(m: Message<F, E>, ids: seq<nat>): nat
    requires WellFormed(m) && ValidIds(m, ids)
    decreases |ids|
  {
    if ids == [] then 0 else Steps(m, ids[0]) + StepsOf(m, ids[1..])
  }

  lemma {:induction false} StepsAgree<F, E>(m: Message<F, E>, after: nat, ids: seq<nat>)
    requires WellFormed(m) && after < |m.parts| && forall i :: 0 <= i < |ids| ==> after < ids[i] < |m.parts|
    ensures StepsAfter(m, after, ids) == StepsOf(m, ids)
    decreases |ids|
  {
    if ids != [] {
      StepsAgree(m, after, ids[1..]);
    }
  }

  function StackSteps<F, E>(stack: seq<Frame<F, E>>, current: Message<F, E>): nat
    requires StackValid(stack, current)
    decreases |stack|
  {
    if stack == [] then 0
    else
      var f := stack[|stack| - 1];
      var m := MessageOf(f, current);
      1 + StepsOf(m, f.parts) + StackSteps(stack[..|stack| - 1], m)
  }

  /** The steps left. */
  ghost function Left<F, E>(parts: seq<nat>, stack: seq<Frame<F, E>>, message: Message<F, E>): nat
    requires WalkValid(parts, stack, message)
  {
    StepsOf(message, parts) + StackSteps(stack, message)
  }

  lemma OpenTakesSteps<F, E>(m: Message<F, E>, id: nat)
    requires WellFormed(m) && id < |m.parts|
    ensures m.parts[id].Multipart? ==> ValidIds(m, m.parts[id].subparts) && Steps(m, id) == 2 + StepsOf(m, m.parts[id].subparts)
    ensures m.parts[id].Nested? ==>
      WellFormed(m.parts[id].message) && ValidIds(m.parts[id].message, [0]) && Steps(m, id) == 2 + StepsOf(m.parts[id].message, [0])
  {
    if m.parts[id].Multipart? {
      StepsAgree(m, id, m.parts[id].subparts);
    } else if m.parts[id].Nested? {
      assert [0][1..] == [];
      assert StepsOf(m.parts[id].message, []) == 0;
    }
  }

  lemma PushedSteps<F, E>(stack: seq<Frame<F, E>>, f: Frame<F, E>, current: Message<F, E>)
    requires WellFormed(MessageOf(f, current)) && ValidIds(MessageOf(f, current), f.parts) && StackValid(stack, MessageOf(f, current))
    ensures StackValid(stack + [f], current)
    ensures StackSteps(stack + [f], current)
         == 1 + StepsOf(MessageOf(f, current), f.parts) + StackSteps(stack, MessageOf(f, current))
  {
    assert (stack + [f])[..|stack|] == stack;
  }

  lemma MultipartLeft<F, E>(root: BodyPart<F, E>, parts: seq<nat>, stack: seq<Frame<F, E>>, message: Message<F, E>)
    requires WalkValid(parts, stack, message) && parts != [] && message.parts[parts[0]].Multipart?
    ensures var subparts := message.parts[parts[0]].subparts;
            var stack' := stack + [Frame(root, parts[1..], None)];
            WalkValid(subparts, stack', message) && Left(subparts, stack', message) < Left(parts, stack, message)
  {
    OpenTakesSteps(message, parts[0]);
    PushedSteps(stack, Frame(root, parts[1..], None), message);
  }

  lemma NestedLeft<F, E>(root: BodyPart<F, E>, parts: seq<nat>, stack: seq<Frame<F, E>>, message: Message<F, E>)
    requires WalkValid(parts, stack, message) && parts != [] && message.parts[parts[0]].Nested?
    ensures var nested := message.parts[parts[0]].message;
            var stack' := stack + [Frame(root, parts[1..], Some(message))];
            WalkValid([0], stack', nested) && Left([0], stack', nested) < Left(parts, stack, message)
  {
    OpenTakesSteps(message, parts[0]);
    PushedSteps(stack, Frame(root, parts[1..], Some(message)), message.parts[parts[0]].message);
  }

  lemma LeafLeft<F, E>(parts: seq<nat>, stack: seq<Frame<F, E>>, message: Message<F, E>)
    requires WalkValid(parts, stack, message) && parts != [] && message.parts[parts[0]].Leaf?
    ensures WalkValid(parts[1..], stack, message) && Left(parts[1..], stack, message) < Left(parts, stack, message)
  {
  }

  lemma PopLeft<F, E>(stack: seq<Frame<F, E>>, message: Message<F, E>)
    requires WalkValid([], stack, message) && stack != []
    ensures var f := stack[|stack| - 1];
            && WalkValid(f.parts, stack[..|stack| - 1], MessageOf(f, message))
            && Left(f.parts, stack[..|stack| - 1], MessageOf(f, message)) < Left([], stack, message)
  {
    var none: seq<nat> := [];
    assert StepsOf(message, none) == 0;
  }

  // ----- The walk -----

  /** The walk under an open part. */
  method Walk<F, E>(root0: BodyPart<F, E>, parts0: seq<nat>, message0: Message<F, E>) returns (root: BodyPart<F, E>)
    requires WalkValid(parts0, [], message0)
    ensures root == AddAll(root0, All(message0, parts0))
  {
    root := root0;
    var parts, message, stack: seq<Frame<F, E>> := parts0, message0, [];
    while true
      invariant WalkValid(parts, stack, message)
      invariant Outcome(root, parts, stack, message) == AddAll(root0, All(message0, parts0))
      decreases Left(parts, stack, message)
    {
      ghost var before := Left(parts, stack, message);
      while parts != []
        invariant WalkValid(parts, stack, message)
        invariant Outcome(root, parts, stack, message) == AddAll(root0, All(message0, parts0))
        invariant Left(parts, stack, message) <= before
        decreases Left(parts, stack, message)
      {
        root, parts, stack, message := Visit(root, parts, stack, message);
      }
      if stack == [] {
        return;
      }
      PopStep(root, stack, message);
      PopLeft(stack, message);
      var f := stack[|stack| - 1];
      root, parts, stack, message := AddPart(f.root, root), f.parts, stack[..|stack| - 1], MessageOf(f, message);
    }
  }

  /** One part: a leaf is added; a multipart or a message is opened. */
  method Visit<F, E>(root: BodyPart<F, E>, parts: seq<nat>, stack: seq<Frame<F, E>>, message: Message<F, E>)
    returns (root': BodyPart<F, E>, parts': seq<nat>, stack': seq<Frame<F, E>>, message': Message<F, E>)
    requires WalkValid(parts, stack, message) && parts != []
    ensures WalkValid(parts', stack', message') && Left(parts', stack', message') < Left(parts, stack, message)
    ensures Outcome(root', parts', stack', message') == Outcome(root, parts, stack, message)
  {
    var part := AsBodyPart(message, parts[0]);
    match message.parts[parts[0]]
    case Nested(_, nested) =>
      NestedStep(root, parts, stack, message);
      NestedLeft(root, parts, stack, message);
      part := SetEnvelope(part, nested.envelope);
      return part, [0], stack + [Frame(root, parts[1..], Some(message))], nested;
    case Multipart(_, subparts) =>
      MultipartStep(root, parts, stack, message);
      MultipartLeft(root, parts, stack, message);
      return part, subparts, stack + [Frame(root, parts[1..], None)], message;
    case Leaf(_, _) =>
      LeafStep(root, parts, stack, message);
      LeafLeft(parts, stack, message);
      return AddPart(root, part), parts[1..], stack, message;
  }

  /** The structure of a message is that of its part 0. With no part open yet, nothing goes on the
      stack. */
  method BodyStructureOf<F, E>(message: Message<F, E>) returns (part: BodyPart<F, E>)
    requires WellFormed(message)
    ensures part == Structure(message, 0)
  {
    part := AsBodyPart(message, 0);
    match message.parts[0]
    case Nested(_, nested) =>
      OpenNested(message, 0);
      part := SetEnvelope(part, nested.envelope);
      part := Walk(part, [0], nested);
    case Multipart(_, subparts) =>
      OpenMultipart(message, 0);
      part := Walk(part, subparts, message);
    case Leaf(_, _) =>
  }
}
