/**
 The decorated error node of package errs (errs.go): an error value carrying a
 message, an optional cause and a string-keyed context map, the free function
 Cause that walks a chain to its root, (*Error).Is, and the three renderings
 (Error/String, JSON, and the verb dispatch of Format).

 Go error values are modelled as the inductive datatype Err, so every chain is
 finite. Construction and SetContext change a fresh *Error in place and are
 modelled on the class Error; a chain holds the value an Error had when it was
 wrapped (Value()).
 */
module Errs {
  import opened Optional
  import opened Encoding

  /** What every nil receiver prints. */
  const NilAngle: string := "<nil>"

  /** `fmt.Sprintf("%T", e)` for an *Error. */
  const ErrorTypeName: string := "*errs.Error"

  /**
   A Go value of interface type `error`.
   - Nil: the nil interface.
   - NilError: a nil *Error held in a non-nil interface (a typed nil).
   - Foreign: any other error: its `%T` name, its Error() text, whether
     reflect reports it as a zero value, and what errors.Unwrap returns for it
     (Nil when it has no Unwrap method).
   - Node: a non-nil *Error.
   `id` is what Go's `==` compares (the pointer, or the value of a value type);
   datatype equality stands for `==` on interfaces.
   */
  datatype Err =
    | Nil
    | NilError
    | Foreign(id: nat, typeName: string, msg: string, zero: bool, next: Err)
    | Node(id: nat, msg: string, cause: Err, context: map<string, string>)
  {
    /** The value's dynamic type is *Error, so its methods are those of errs.go. */
    predicate IsErrorPtr() {
      NilError? || Node?
    }
  }

  function Depth(e: Err): nat {
    match e
    case Nil => 0
    case NilError => 1
    case Foreign(_, _, _, _, next) => 1 + Depth(next)
    case Node(_, _, cause, _) => 1 + Depth(cause)
  }

  // ---------------------------------------------------------------------
  // Chain walking: Unwrap, Cause, Is
  // ---------------------------------------------------------------------

  /** errors.Unwrap: (*Error).Unwrap gives the Cause, nil on a nil receiver. */
  function Unwrap(e: Err): (r: Err)
    ensures r != Nil ==> Depth(r) < Depth(e)
  {
    match e
    case Nil => Nil
    case NilError => Nil
    case Foreign(_, _, _, _, next) => next
    case Node(_, _, cause, _) => cause
  }

  /** The values errors.Unwrap visits from e on, e first, up to the first nil. */
  function Chain(e: Err): (c: seq<Err>)
    ensures forall x | x in c :: x != Nil && Depth(x) <= Depth(e)
    ensures e != Nil ==> |c| > 0 && c[0] == e
    decreases Depth(e)
  {
    if e == Nil then [] else [e] + Chain(Unwrap(e))
  }

  /** The root cause: the value from which errors.Unwrap yields nil. */
  function Root(e: Err): (r: Err)
    ensures Unwrap(r) == Nil
    ensures r == Nil <==> e == Nil
    ensures e != Nil ==> r in Chain(e)
    decreases Depth(e)
  {
    if Unwrap(e) == Nil then e else Root(Unwrap(e))
  }

  /** The free function Cause: unwraps until errors.Unwrap yields nil. */
  method Cause(err: Err) returns (root: Err)
    ensures root == Root(err)
  {
    root := err;
    while true
      invariant Root(root) == Root(err)
      decreases Depth(root)
    {
      var unwrapped := Unwrap(root);
      if unwrapped == Nil {
        return;
      }
      root := unwrapped;
    }
  }

  /** Cause is idempotent: the root of a root is itself. */
  lemma RootIdempotent(e: Err)
    ensures Root(Root(e)) == Root(e)
  {
  }

  /** The root cause is the last value of the chain. */
  lemma {:induction false} RootIsLastOfChain(e: Err)
    requires e != Nil
    ensures Chain(e)[|Chain(e)| - 1] == Root(e)
    decreases Depth(e)
  {
    if Unwrap(e) != Nil {
      RootIsLastOfChain(Unwrap(e));
    }
  }

  /** The chain of any value of a chain lies inside that chain. */
  lemma {:induction false} ChainOfMember(e: Err, x: Err)
    requires x in Chain(e)
    ensures forall y | y in Chain(x) :: y in Chain(e)
    decreases Depth(e)
  {
    if x != e {
      ChainOfMember(Unwrap(e), x);
    }
  }

  /** 1 while `t` has a cause of its own, 0 once it is its own root. */
  function RootRank(t: Err): nat {
    if Root(t) == t then 0 else 1
  }

  /**
   (*Error).Is: true when e is the target itself, or when the target's root
   cause differs from the target and errors.Is finds that root in e.
   */
  function Is(e: Err, target: Err): bool
    requires e.IsErrorPtr()
    decreases RootRank(target), Depth(e), 0
  {
    e == target || (var cause := Root(target); cause != target && HostIs(e, cause))
  }

  /**
   errors.Is, restricted to single-unwrap chains: some value of err's chain is
   the target, or is an *Error whose Is method reports the target.
   */
  function HostIs(err: Err, target: Err): bool
    decreases RootRank(target), Depth(err), 1
  {
    if err == Nil || target == Nil then err == target
    else
      var c := Chain(err);
      exists i | 0 <= i < |c| :: c[i] == target || (c[i].IsErrorPtr() && Is(c[i], target))
  }

  /** Against a root target, errors.Is is plain chain membership. */
  lemma HostIsRoot(err: Err, r: Err)
    requires r != Nil && Root(r) == r
    ensures HostIs(err, r) <==> r in Chain(err)
  {
    if err != Nil {
      var c := Chain(err);
      if r in c {
        var i :| 0 <= i < |c| && c[i] == r;
      }
    }
  }

  /**
   (*Error).Is: true when e is the target; false when the target is its own
   root and not e; otherwise true exactly when the target's root is in e's
   chain.
   */
  lemma IsByChain(e: Err, target: Err)
    requires e.IsErrorPtr()
    ensures e == target ==> Is(e, target)
    ensures Root(target) == target && e != target ==> !Is(e, target)
    ensures Root(target) != target ==>
              (Is(e, target) <==> e == target || Root(target) in Chain(e))
  {
    if Root(target) != target {
      HostIsRoot(e, Root(target));
    }
  }

  /**
   errors.Is on an *Error: the target is in its chain, or the target has a
   cause of its own whose root is in the chain.
   */
  lemma HostIsNode(e: Err, target: Err)
    requires e.Node? && target != Nil
    ensures HostIs(e, target) <==>
              target in Chain(e) || (Root(target) != target && Root(target) in Chain(e))
  {
    if HostIs(e, target) {
      HostIsNodeFound(e, target);
    } else {
      HostIsNodeMissed(e, target);
    }
  }

  lemma HostIsNodeFound(e: Err, target: Err)
    requires e.Node? && target != Nil && HostIs(e, target)
    ensures target in Chain(e) || (Root(target) != target && Root(target) in Chain(e))
  {
    var c := Chain(e);
    var i :| 0 <= i < |c| && (c[i] == target || (c[i].IsErrorPtr() && Is(c[i], target)));
    if c[i] != target {
      IsByChain(c[i], target);
      HostIsRoot(c[i], Root(target));
      ChainOfMember(e, c[i]);
    }
  }

  lemma HostIsNodeMissed(e: Err, target: Err)
    requires e.Node? && target != Nil && !HostIs(e, target)
    ensures target !in Chain(e) && (Root(target) != target ==> Root(target) !in Chain(e))
  {
    if Root(target) != target {
      HostIsRoot(e, Root(target));
      IsByChain(e, target);
    }
  }

  /** errors.Is(Wrap(x, ...), x) holds for every non-nil x. */
  lemma HostIsWrapped(e: Err)
    requires e.Node? && e.cause != Nil
    ensures HostIs(e, e.cause)
  {
    assert Chain(e)[1] == e.cause;
  }

  // ---------------------------------------------------------------------
  // Rendering: Error, String, Format
  // ---------------------------------------------------------------------

  /**
   The text of an error: Error() for an *Error; the error's own Error() text
   for other errors; fmt's "<nil>" for the nil interface.
   */
  function Text(e: Err): string {
    match e
    case Nil => NilAngle
    case NilError => NilAngle
    case Foreign(_, _, msg, _, _) => msg
    case Node(_, msg, cause, _) =>
      if cause == Nil then msg
      else if |msg| == 0 then Text(cause)
      else msg + ": " + Text(cause)
  }

  /** (*Error).String. */
  function String(e: Err): string
    requires e.IsErrorPtr()
  {
    Text(e)
  }

  /** The messages a display text is made of, outermost first. */
  function Segments(e: Err): (s: seq<string>)
    ensures |s| > 0
  {
    match e
    case Nil => [NilAngle]
    case NilError => [NilAngle]
    case Foreign(_, _, msg, _, _) => [msg]
    case Node(_, msg, cause, _) =>
      if cause == Nil then [msg]
      else if |msg| == 0 then Segments(cause)
      else [msg] + Segments(cause)
  }

  /**
   The display text is the messages along the chain of *Error nodes, joined by
   ": ", where a node with an empty message adds nothing and a node without a
   cause ends the text.
   */
  lemma {:induction false} TextIsJoinedSegments(e: Err)
    ensures Text(e) == Join(Segments(e), ": ")
  {
    match e
    case Nil =>
    case NilError =>
    case Foreign(_, _, _, _, _) =>
    case Node(_, msg, cause, _) =>
      if cause != Nil {
        TextIsJoinedSegments(cause);
        if |msg| > 0 {
          JoinPrepend(msg, Segments(cause), ": ");
        }
      }
  }

  /** (*Error).GoString: "<nil>" for a nil receiver, otherwise the host's `%#v` text. */
  function GoString(e: Err, goSyntax: string): string
    requires e.IsErrorPtr()
  {
    if e.NilError? then NilAngle else goSyntax
  }

  /**
   (*Error).Format: `%#v` is GoString, `%+v` is JSON, `%v` and `%s` are the
   display text, any other verb is `%!<verb>(<GoString>)`.
   */
  function Format(e: Err, verb: char, sharp: bool, plus: bool, goSyntax: string): string
    requires e.IsErrorPtr()
  {
    if verb == 'v' then
      if sharp then GoString(e, goSyntax)
      else if plus then JSON(e)
      else Text(e)
    else if verb == 's' then String(e)
    else "%!" + [verb] + "(" + GoString(e, goSyntax) + ")"
  }

  /** String(), `%s` and plain `%v` all print Error(). */
  lemma FormatTextViews(e: Err, sharp: bool, plus: bool, goSyntax: string)
    requires e.IsErrorPtr()
    ensures String(e) == Text(e)
    ensures Format(e, 's', sharp, plus, goSyntax) == Text(e)
    ensures Format(e, 'v', false, false, goSyntax) == Text(e)
    ensures Format(e, 'v', false, true, goSyntax) == JSON(e)
  {
  }

  /** Every view of a nil *Error is the nil text, and JSON is `null`. */
  lemma FormatNilReceiver(verb: char, goSyntax: string)
    requires verb != 'v' && verb != 's'
    ensures Format(NilError, 'v', false, false, goSyntax) == "<nil>"
    ensures Format(NilError, 's', false, false, goSyntax) == "<nil>"
    ensures Format(NilError, 'v', true, false, goSyntax) == "<nil>"
    ensures Format(NilError, 'v', false, true, goSyntax) == "null"
    ensures Format(NilError, verb, false, false, goSyntax) == "%!" + [verb] + "(<nil>)"
  {
  }

  // ---------------------------------------------------------------------
  // JSON
  // ---------------------------------------------------------------------

  /** `fmt.Sprintf("%T", e)`. */
  function TypeName(e: Err): string {
    match e
    case Nil => NilAngle
    case NilError => ErrorTypeName
    case Foreign(_, typeName, _, _, _) => typeName
    case Node(_, _, _, _) => ErrorTypeName
  }

  /** `reflect.ValueOf(e).IsZero()` for a non-nil interface value. */
  predicate IsZero(e: Err) {
    e.NilError? || (e.Foreign? && e.zero)
  }

  /** `"Type":%q` */
  function TypeElement(typeName: string): string {
    "\"Type\":" + Quote(typeName)
  }

  /** `"Msg":%q`, HTML-escaped. */
  function MsgElement(text: string): string {
    HtmlEscape("\"Msg\":" + Quote(text))
  }

  /**
   One member of a JSON object, its value already rendered: a member whose
   name the renderer writes literally, or a map entry whose key json.Marshal
   writes as a JSON string.
   */
  datatype Member = Fixed(key: string, value: string) | Entry(key: string, value: string)

  function MemberText(m: Member): string {
    match m
    case Fixed(key, value) => "\"" + key + "\":" + value
    case Entry(key, value) => MarshalString(key) + ":" + value
  }

  function MemberTexts(ms: seq<Member>): (r: seq<string>)
    ensures |r| == |ms|
  {
    if ms == [] then [] else [MemberText(ms[0])] + MemberTexts(ms[1..])
  }

  /** A JSON object with these members, in this order. */
  function RenderObject(ms: seq<Member>): string {
    "{" + Join(MemberTexts(ms), ",") + "}"
  }

  function Keys(ms: seq<Member>): (r: seq<string>)
    ensures |r| == |ms|
    ensures forall i | 0 <= i < |ms| :: r[i] == ms[i].key
  {
    if ms == [] then [] else [ms[0].key] + Keys(ms[1..])
  }

  function ContextMembers(context: map<string, string>, keys: seq<string>): (ms: seq<Member>)
    requires forall k | k in keys :: k in context
    ensures Keys(ms) == keys
    ensures forall i | 0 <= i < |ms| :: ms[i].Entry? && ms[i].value == MarshalString(context[keys[i]])
  {
    if keys == [] then []
    else [Entry(keys[0], MarshalString(context[keys[0]]))] + ContextMembers(context, keys[1..])
  }

  /** `json.Marshal` of the context: keys in sorted order, string values. */
  function ContextJSON(context: map<string, string>): string {
    RenderObject(ContextMembers(context, SortedKeys(context.Keys)))
  }

  /** Whether JSON writes a "Cause" member for this cause. */
  predicate CauseShown(cause: Err) {
    cause != Nil && !IsZero(cause)
  }

  /** (*Error).JSON. */
  function JSON(e: Err): string
    requires e.IsErrorPtr()
    decreases Depth(e), 0
  {
    if e.NilError? then "null"
    else
      var elms := [TypeElement(TypeName(e)), MsgElement(Text(e))]
        + (if |e.context| > 0 then ["\"Context\":" + ContextJSON(e.context)] else [])
        + (if CauseShown(e.cause) then ["\"Cause\":" + EncodeJSON(e.cause)] else []);
      "{" + Join(elms, ",") + "}"
  }

  /** The free function EncodeJSON: an *Error renders itself, any other error generically. */
  function EncodeJSON(e: Err): string
    decreases Depth(e), 1
  {
    if e.IsErrorPtr() then JSON(e) else EncodeGenericJSON(e)
  }

  /** encodeJSON: `%T` name, Error() text, and the value errors.Unwrap gives. */
  function EncodeGenericJSON(e: Err): string
    decreases Depth(e), 0
  {
    if e == Nil then "null"
    else
      var elms := [TypeElement(TypeName(e)), MsgElement(Text(e))];
      var unwrapped := Unwrap(e);
      if unwrapped == Nil then "{" + Join(elms, ",") + "}"
      else
        var cause := if unwrapped.IsErrorPtr() then JSON(unwrapped) else EncodeGenericJSON(unwrapped);
        "{" + Join(elms + ["\"Cause\":" + cause], ",") + "}"
  }

  /** The members JSON writes for a non-nil *Error, in order. */
  function NodeMembers(e: Err): seq<Member>
    requires e.Node?
  {
    [Fixed("Type", Quote(TypeName(e))), Fixed("Msg", JsonString(Text(e)))]
    + (if |e.context| > 0 then [Fixed("Context", ContextJSON(e.context))] else [])
    + (if CauseShown(e.cause) then [Fixed("Cause", EncodeJSON(e.cause))] else [])
  }

  /** The members encodeJSON writes for any other non-nil error, in order. */
  function GenericMembers(e: Err): seq<Member>
    requires e != Nil
  {
    [Fixed("Type", Quote(TypeName(e))), Fixed("Msg", JsonString(Text(e)))]
    + (if Unwrap(e) != Nil then [Fixed("Cause", EncodeJSON(Unwrap(e)))] else [])
  }

  lemma {:induction false} MemberTextsAppend(a: seq<Member>, b: seq<Member>)
    ensures MemberTexts(a + b) == MemberTexts(a) + MemberTexts(b)
  {
    if a == [] {
      assert a + b == b;
    } else {
      assert (a + b)[0] == a[0];
      assert (a + b)[1..] == a[1..] + b;
      MemberTextsAppend(a[1..], b);
    }
  }

  lemma MsgMember(text: string)
    ensures MemberText(Fixed("Msg", JsonString(text))) == MsgElement(text)
  {
    var prefix := "\"Msg\":";
    SafeByChars(prefix);
    HtmlEscapeKeepsSafe(prefix);
    HtmlEscapeAppend(prefix, Quote(text));
    assert "\"" + "Msg" + "\":" == prefix;
  }

  /** The Type and Msg elements are the "Type" and "Msg" members of the object. */
  lemma HeadMembers(typeName: string, text: string)
    ensures MemberTexts([Fixed("Type", Quote(typeName)), Fixed("Msg", JsonString(text))])
         == [TypeElement(typeName), MsgElement(text)]
  {
    var ms := [Fixed("Type", Quote(typeName)), Fixed("Msg", JsonString(text))];
    MsgMember(text);
    assert "\"" + "Type" + "\":" == "\"Type\":";
    assert MemberText(ms[0]) == TypeElement(typeName);
    assert ms[1..] == [ms[1]];
    assert ms[1..][1..] == [];
  }

  lemma SingleMember(m: Member)
    ensures MemberTexts([m]) == [MemberText(m)]
  {
    assert [m][1..] == [];
  }

  /** A member with a literal name renders as its quoted name and colon and the value. */
  lemma FixedMember(key: string, prefix: string, value: string)
    requires prefix == "\"" + key + "\":"
    ensures MemberTexts([Fixed(key, value)]) == [prefix + value]
  {
    SingleMember(Fixed(key, value));
  }

  /** The quoted names of the optional members, as the renderers spell them. */
  lemma OptionalPrefixes()
    ensures "\"" + "Context" + "\":" == "\"Context\":"
    ensures "\"" + "Cause" + "\":" == "\"Cause\":"
  {
  }

  lemma NodeJSON(e: Err)
    requires e.Node?
    ensures JSON(e) == RenderObject(NodeMembers(e))
  {
    var head := [Fixed("Type", Quote(TypeName(e))), Fixed("Msg", JsonString(Text(e)))];
    var ctx := if |e.context| > 0 then [Fixed("Context", ContextJSON(e.context))] else [];
    var cause := if CauseShown(e.cause) then [Fixed("Cause", EncodeJSON(e.cause))] else [];
    HeadMembers(TypeName(e), Text(e));
    OptionalPrefixes();
    if |e.context| > 0 { FixedMember("Context", "\"Context\":", ContextJSON(e.context)); }
    if CauseShown(e.cause) { FixedMember("Cause", "\"Cause\":", EncodeJSON(e.cause)); }
    MemberTextsAppend(head + ctx, cause);
    MemberTextsAppend(head, ctx);
    assert MemberTexts(NodeMembers(e)) == MemberTexts(head) + MemberTexts(ctx) + MemberTexts(cause);
  }

  lemma ForeignJSON(e: Err)
    requires e.Foreign?
    ensures EncodeGenericJSON(e) == RenderObject(GenericMembers(e))
  {
    var head := [Fixed("Type", Quote(TypeName(e))), Fixed("Msg", JsonString(Text(e)))];
    var cause := if Unwrap(e) != Nil then [Fixed("Cause", EncodeJSON(Unwrap(e)))] else [];
    HeadMembers(TypeName(e), Text(e));
    OptionalPrefixes();
    if Unwrap(e) != Nil { FixedMember("Cause", "\"Cause\":", EncodeJSON(Unwrap(e))); }
    MemberTextsAppend(head, cause);
  }

  lemma KeysAppend(a: seq<Member>, b: seq<Member>)
    ensures Keys(a + b) == Keys(a) + Keys(b)
  {
    var l, r := Keys(a + b), Keys(a) + Keys(b);
    forall i | 0 <= i < |l| ensures l[i] == r[i] {
      if i < |a| {
        assert (a + b)[i] == a[i];
      } else {
        assert (a + b)[i] == b[i - |a|];
      }
    }
  }

  lemma KeysOf(ms: seq<Member>, ks: seq<string>)
    requires |ms| == |ks| && forall i | 0 <= i < |ms| :: ms[i].key == ks[i]
    ensures Keys(ms) == ks
  {
  }

  lemma HeadKeys(t: string, m: string)
    ensures Keys([Fixed("Type", t), Fixed("Msg", m)]) == ["Type", "Msg"]
  {
    KeysOf([Fixed("Type", t), Fixed("Msg", m)], ["Type", "Msg"]);
  }

  lemma OptionalKeys(present: bool, key: string, value: string)
    ensures Keys(if present then [Fixed(key, value)] else []) == if present then [key] else []
  {
    if present {
      KeysOf([Fixed(key, value)], [key]);
    }
  }

  lemma NodeKeys(e: Err)
    requires e.Node?
    ensures Keys(NodeMembers(e)) == ["Type", "Msg"]
              + (if |e.context| > 0 then ["Context"] else [])
              + (if CauseShown(e.cause) then ["Cause"] else [])
  {
    var head := [Fixed("Type", Quote(TypeName(e))), Fixed("Msg", JsonString(Text(e)))];
    var ctx := if |e.context| > 0 then [Fixed("Context", ContextJSON(e.context))] else [];
    var cause := if CauseShown(e.cause) then [Fixed("Cause", EncodeJSON(e.cause))] else [];
    HeadKeys(Quote(TypeName(e)), JsonString(Text(e)));
    OptionalKeys(|e.context| > 0, "Context", ContextJSON(e.context));
    OptionalKeys(CauseShown(e.cause), "Cause", EncodeJSON(e.cause));
    KeysAppend(head, ctx);
    KeysAppend(head + ctx, cause);
  }

  lemma GenericKeys(e: Err)
    requires e != Nil
    ensures Keys(GenericMembers(e)) == ["Type", "Msg"] + (if Unwrap(e) != Nil then ["Cause"] else [])
  {
    var head := [Fixed("Type", Quote(TypeName(e))), Fixed("Msg", JsonString(Text(e)))];
    var cause := if Unwrap(e) != Nil then [Fixed("Cause", EncodeJSON(Unwrap(e)))] else [];
    HeadKeys(Quote(TypeName(e)), JsonString(Text(e)));
    OptionalKeys(Unwrap(e) != Nil, "Cause", EncodeJSON(Unwrap(e)));
    KeysAppend(head, cause);
  }

  /**
   EncodeJSON: nil and a nil *Error give `null`; a non-nil *Error gives the
   members Type, Msg, Context (only when the context is non-empty) and Cause
   (only when the cause is non-nil and not a zero value, rendered by
   EncodeJSON); any other error gives Type, Msg and, when errors.Unwrap yields
   a non-nil value, Cause rendered by EncodeJSON. In both, the Msg member
   decodes to exactly the error's text, unless the text holds a control
   character %q writes in a form JSON does not have; then it does not decode.
   */
  lemma EncodeJSONShape(e: Err)
    ensures e == Nil || e == NilError ==> EncodeJSON(e) == "null"
    ensures e.Node? ==>
              && EncodeJSON(e) == RenderObject(NodeMembers(e))
              && Keys(NodeMembers(e)) == ["Type", "Msg"]
                   + (if |e.context| > 0 then ["Context"] else [])
                   + (if CauseShown(e.cause) then ["Cause"] else [])
              && DecodeString(NodeMembers(e)[1].value) == JsonReadback(Text(e))
    ensures e.Foreign? ==>
              && EncodeJSON(e) == RenderObject(GenericMembers(e))
              && Keys(GenericMembers(e)) == ["Type", "Msg"] + (if e.next != Nil then ["Cause"] else [])
              && DecodeString(GenericMembers(e)[1].value) == JsonReadback(Text(e))
  {
    if e.Node? {
      NodeShape(e);
    } else if e.Foreign? {
      ForeignShape(e);
    }
  }

  lemma NodeShape(e: Err)
    requires e.Node?
    ensures EncodeJSON(e) == RenderObject(NodeMembers(e))
    ensures Keys(NodeMembers(e)) == ["Type", "Msg"]
              + (if |e.context| > 0 then ["Context"] else [])
              + (if CauseShown(e.cause) then ["Cause"] else [])
    ensures DecodeString(NodeMembers(e)[1].value) == JsonReadback(Text(e))
  {
    NodeMsg(e);
    JsonStringRoundTrip(Text(e));
    NodeJSON(e);
    NodeKeys(e);
  }

  lemma NodeMsg(e: Err)
    requires e.Node?
    ensures NodeMembers(e)[1].value == JsonString(Text(e))
  {
    SecondMember(Fixed("Type", Quote(TypeName(e))), Fixed("Msg", JsonString(Text(e))),
                 if |e.context| > 0 then [Fixed("Context", ContextJSON(e.context))] else [],
                 if CauseShown(e.cause) then [Fixed("Cause", EncodeJSON(e.cause))] else []);
  }

  lemma SecondMember(a: Member, b: Member, c: seq<Member>, x: seq<Member>)
    ensures ([a, b] + c + x)[1] == b
  {
  }

  lemma ForeignShape(e: Err)
    requires e.Foreign?
    ensures EncodeJSON(e) == RenderObject(GenericMembers(e))
    ensures Keys(GenericMembers(e)) == ["Type", "Msg"] + (if e.next != Nil then ["Cause"] else [])
    ensures DecodeString(GenericMembers(e)[1].value) == JsonReadback(Text(e))
  {
    SecondMember(Fixed("Type", Quote(TypeName(e))), Fixed("Msg", JsonString(Text(e))), [],
                 if Unwrap(e) != Nil then [Fixed("Cause", EncodeJSON(Unwrap(e)))] else []);
    assert [Fixed("Type", Quote(TypeName(e))), Fixed("Msg", JsonString(Text(e)))] + [] ==
           [Fixed("Type", Quote(TypeName(e))), Fixed("Msg", JsonString(Text(e)))];
    JsonStringRoundTrip(Text(e));
    ForeignJSON(e);
    GenericKeys(e);
  }

  /**
   A typed-nil cause (a nil *Error held in a non-nil interface) still shows
   in the text as "<nil>", but JSON leaves the Cause member out.
   */
  lemma TypedNilCauseHidden(id: nat, msg: string, context: map<string, string>)
    requires |msg| > 0
    ensures Text(Node(id, msg, NilError, context)) == msg + ": " + NilAngle
    ensures Keys(NodeMembers(Node(id, msg, NilError, context)))
         == ["Type", "Msg"] + (if |context| > 0 then ["Context"] else [])
  {
    var e := Node(id, msg, NilError, context);
    assert !CauseShown(e.cause);
    NodeShape(e);
  }

  /**
   The Context member lists every key once, in sorted order, and each value
   decodes to the value stored under its key.
   */
  lemma ContextJSONShape(context: map<string, string>)
    ensures var ms := ContextMembers(context, SortedKeys(context.Keys));
      && ContextJSON(context) == RenderObject(ms)
      && StrictlySorted(Keys(ms))
      && (forall k :: k in Keys(ms) <==> k in context)
      && forall i | 0 <= i < |ms| :: DecodeString(ms[i].value) == Some(context[Keys(ms)[i]])
  {
    var keys := SortedKeys(context.Keys);
    EntriesDecode(context, keys);
    assert Keys(ContextMembers(context, keys)) == keys;
  }

  /** Each entry's value decodes to the value stored under its key. */
  lemma EntriesDecode(context: map<string, string>, keys: seq<string>)
    requires forall k | k in keys :: k in context
    ensures var ms := ContextMembers(context, keys);
      forall i | 0 <= i < |ms| :: DecodeString(ms[i].value) == Some(context[keys[i]])
  {
    var ms := ContextMembers(context, keys);
    forall i | 0 <= i < |ms| ensures DecodeString(ms[i].value) == Some(context[keys[i]]) {
      MarshalStringRoundTrip(context[keys[i]]);
    }
  }

  /** Every foreign type name along the chain is free of characters json.HTMLEscape rewrites. */
  predicate SafeTypeNames(e: Err) {
    match e
    case Foreign(_, typeName, _, _, next) => HtmlSafe(typeName) && SafeTypeNames(next)
    case Node(_, _, cause, _) => SafeTypeNames(cause)
    case _ => true
  }

  /** A member is safe when its value is, and, for a name written literally, its name. */
  predicate MemberSafe(m: Member) {
    HtmlSafe(m.value) && (m.Fixed? ==> HtmlSafe(m.key))
  }

  lemma MemberTextSafe(m: Member)
    requires MemberSafe(m)
    ensures HtmlSafe(MemberText(m))
  {
    if m.Fixed? {
      HtmlSafeAppend("\"", m.key);
      HtmlSafeAppend("\"" + m.key, "\":");
      HtmlSafeAppend("\"" + m.key + "\":", m.value);
    } else {
      MarshalStringSafe(m.key);
      HtmlSafeAppend(MarshalString(m.key), ":");
      HtmlSafeAppend(MarshalString(m.key) + ":", m.value);
    }
  }

  lemma {:induction false} MemberTextsSafe(ms: seq<Member>)
    requires forall i | 0 <= i < |ms| :: MemberSafe(ms[i])
    ensures forall i | 0 <= i < |ms| :: HtmlSafe(MemberTexts(ms)[i])
  {
    if ms != [] {
      MemberTextsSafe(ms[1..]);
      MemberTextSafe(ms[0]);
      assert forall i | 1 <= i < |ms| :: MemberTexts(ms)[i] == MemberTexts(ms[1..])[i - 1];
    }
  }

  /** An object whose members are safe is safe. */
  lemma ObjectSafe(ms: seq<Member>)
    requires MembersSafe(ms)
    ensures HtmlSafe(RenderObject(ms))
  {
    MemberTextsSafe(ms);
    JoinSafe(MemberTexts(ms), ",");
    HtmlSafeAppend("{", Join(MemberTexts(ms), ","));
    HtmlSafeAppend("{" + Join(MemberTexts(ms), ","), "}");
  }

  lemma ContextJSONSafe(context: map<string, string>)
    ensures HtmlSafe(ContextJSON(context))
  {
    var keys := SortedKeys(context.Keys);
    EntriesSafe(context, keys);
    ObjectSafe(ContextMembers(context, keys));
  }

  /** Map entries are safe: every value is escaped as it is written. */
  lemma {:induction false} EntriesSafe(context: map<string, string>, keys: seq<string>)
    requires forall k | k in keys :: k in context
    ensures MembersSafe(ContextMembers(context, keys))
    decreases |keys|
  {
    if keys != [] {
      EntriesSafe(context, keys[1..]);
      MarshalStringSafe(context[keys[0]]);
      MembersSafeAppend([Entry(keys[0], MarshalString(context[keys[0]]))], ContextMembers(context, keys[1..]));
    }
  }

  lemma TypeNameSafe(e: Err)
    requires SafeTypeNames(e) && e != Nil
    ensures HtmlSafe(TypeName(e))
  {
    if !e.Foreign? {
      SafeByChars(ErrorTypeName);
    }
  }

  /** The names the renderers write literally need no HTML escaping. */
  lemma FixedNamesSafe()
    ensures HtmlSafe("Type") && HtmlSafe("Msg") && HtmlSafe("Context") && HtmlSafe("Cause")
  {
    SafeByChars("Type");
    SafeByChars("Msg");
    SafeByChars("Context");
    SafeByChars("Cause");
  }

  predicate MembersSafe(ms: seq<Member>) {
    forall i | 0 <= i < |ms| :: MemberSafe(ms[i])
  }

  lemma MembersSafeAppend(a: seq<Member>, b: seq<Member>)
    requires MembersSafe(a) && MembersSafe(b)
    ensures MembersSafe(a + b)
  {
    forall i | 0 <= i < |a + b| ensures MemberSafe((a + b)[i]) {
      if i >= |a| {
        assert (a + b)[i] == b[i - |a|];
      }
    }
  }

  /**
   The Type, Msg, optional Context and optional Cause members are safe when
   their names, the type name and the rendered values are.
   */
  lemma HeadMembersSafe(kt: string, km: string, kc: string, kx: string,
                        t: string, m: string, hasC: bool, cv: string, hasX: bool, xv: string)
    requires HtmlSafe(kt) && HtmlSafe(km) && HtmlSafe(kc) && HtmlSafe(kx) && HtmlSafe(t)
    requires hasC ==> HtmlSafe(cv)
    requires hasX ==> HtmlSafe(xv)
    ensures MembersSafe([Fixed(kt, Quote(t)), Fixed(km, JsonString(m))]
                        + (if hasC then [Fixed(kc, cv)] else [])
                        + (if hasX then [Fixed(kx, xv)] else []))
  {
    var h := [Fixed(kt, Quote(t)), Fixed(km, JsonString(m))];
    QuoteSafe(t);
    JsonStringSafe(m);
    PairSafe(Fixed(kt, Quote(t)), Fixed(km, JsonString(m)));
    OptionalSafe(hasC, kc, cv);
    OptionalSafe(hasX, kx, xv);
    MembersSafeAppend(h, if hasC then [Fixed(kc, cv)] else []);
    MembersSafeAppend(h + (if hasC then [Fixed(kc, cv)] else []), if hasX then [Fixed(kx, xv)] else []);
  }

  lemma PairSafe(a: Member, b: Member)
    requires MemberSafe(a) && MemberSafe(b)
    ensures MembersSafe([a, b])
  {
  }

  lemma OptionalSafe(present: bool, key: string, value: string)
    requires HtmlSafe(key) && (present ==> HtmlSafe(value))
    ensures MembersSafe(if present then [Fixed(key, value)] else [])
  {
  }

  lemma HeadObjectSafe(kt: string, km: string, kc: string, kx: string,
                       t: string, m: string, hasC: bool, cv: string, hasX: bool, xv: string)
    requires HtmlSafe(kt) && HtmlSafe(km) && HtmlSafe(kc) && HtmlSafe(kx) && HtmlSafe(t)
    requires hasC ==> HtmlSafe(cv)
    requires hasX ==> HtmlSafe(xv)
    ensures HtmlSafe(RenderObject([Fixed(kt, Quote(t)), Fixed(km, JsonString(m))]
                                  + (if hasC then [Fixed(kc, cv)] else [])
                                  + (if hasX then [Fixed(kx, xv)] else [])))
  {
    HeadMembersSafe(kt, km, kc, kx, t, m, hasC, cv, hasX, xv);
    ObjectSafe([Fixed(kt, Quote(t)), Fixed(km, JsonString(m))]
               + (if hasC then [Fixed(kc, cv)] else [])
               + (if hasX then [Fixed(kx, xv)] else []));
  }

  lemma NodeMembersSafe(e: Err)
    requires e.Node? && SafeTypeNames(e)
    requires CauseShown(e.cause) ==> HtmlSafe(EncodeJSON(e.cause))
    ensures HtmlSafe(RenderObject(NodeMembers(e)))
  {
    ContextJSONSafe(e.context);
    TypeNameSafe(e);
    FixedNamesSafe();
    HeadObjectSafe("Type", "Msg", "Context", "Cause", TypeName(e), Text(e),
                   |e.context| > 0, ContextJSON(e.context), CauseShown(e.cause), EncodeJSON(e.cause));
  }

  lemma NodeSafe(e: Err)
    requires e.Node? && SafeTypeNames(e)
    requires CauseShown(e.cause) ==> HtmlSafe(EncodeJSON(e.cause))
    ensures HtmlSafe(EncodeJSON(e))
  {
    NodeMembersSafe(e);
    NodeJSON(e);
  }

  lemma ForeignMembersSafe(e: Err)
    requires e.Foreign? && SafeTypeNames(e)
    requires e.next != Nil ==> HtmlSafe(EncodeJSON(e.next))
    ensures HtmlSafe(RenderObject(GenericMembers(e)))
  {
    var h := [Fixed("Type", Quote(TypeName(e))), Fixed("Msg", JsonString(Text(e)))];
    var x := if Unwrap(e) != Nil then [Fixed("Cause", EncodeJSON(Unwrap(e)))] else [];
    TypeNameSafe(e);
    FixedNamesSafe();
    QuoteSafe(TypeName(e));
    JsonStringSafe(Text(e));
    PairSafe(Fixed("Type", Quote(TypeName(e))), Fixed("Msg", JsonString(Text(e))));
    OptionalSafe(Unwrap(e) != Nil, "Cause", EncodeJSON(Unwrap(e)));
    MembersSafeAppend(h, x);
    ObjectSafe(h + x);
  }

  lemma ForeignSafe(e: Err)
    requires e.Foreign? && SafeTypeNames(e)
    requires e.next != Nil ==> HtmlSafe(EncodeJSON(e.next))
    ensures HtmlSafe(EncodeJSON(e))
  {
    ForeignMembersSafe(e);
    ForeignJSON(e);
  }

  /**
   EncodeJSON writes nothing json.HTMLEscape would rewrite, as long as the
   type names along the chain contain none of `<`, `>`, `&`, U+2028 or U+2029:
   messages and context values are escaped as they are written.
   */
  lemma {:induction false} EncodeJSONIsSafe(e: Err)
    requires SafeTypeNames(e)
    ensures HtmlSafe(EncodeJSON(e))
    decreases Depth(e)
  {
    if e.Node? {
      if CauseShown(e.cause) {
        EncodeJSONIsSafe(e.cause);
      }
      NodeSafe(e);
    } else if e.Foreign? {
      if e.next != Nil {
        EncodeJSONIsSafe(e.next);
      }
      ForeignSafe(e);
    } else {
      EncodeJSONShape(e);
      assert EncodeJSON(e) == ['n', 'u', 'l', 'l'];
      SafeByChars(EncodeJSON(e));
    }
  }

  // ---------------------------------------------------------------------
  // Construction: New, Wrap, newError, WithContext, SetContext
  // ---------------------------------------------------------------------

  /** A non-nil *Error, whose Msg, Cause and Context are changed in place. */
  class Error {
    const id: nat
    var msg: string
    var cause: Err
    var context: map<string, string>

    constructor (id: nat, msg: string, cause: Err)
      ensures this.id == id && this.msg == msg && this.cause == cause && context == map[]
    {
      this.id := id;
      this.msg := msg;
      this.cause := cause;
      this.context := map[];
    }

    /** The error value this object currently is. */
    function Value(): Err
      reads this
    {
      Node(id, msg, cause, context)
    }
  }

  /** The error a `*Error` result is as an `error`: nil becomes the nil interface. */
  function AsErr(e: Error?): Err
    reads e
  {
    if e == null then Nil else e.Value()
  }

  /** The context after SetContext(name, value): an empty name changes nothing. */
  function Put(context: map<string, string>, name: string, value: string): map<string, string> {
    if |name| > 0 then context[name := value] else context
  }

  /** Lookup of a context key. */
  function Get(context: map<string, string>, key: string): Option<string> {
    if key in context then Some(context[key]) else None
  }

  /**
   SetContext with a non-empty name makes `name` give `value`; every other key
   keeps what it had; an empty name changes nothing.
   */
  lemma PutSemantics(context: map<string, string>, name: string, value: string, key: string)
    ensures |name| > 0 ==> Get(Put(context, name, value), name) == Some(value)
    ensures key != name || |name| == 0 ==> Get(Put(context, name, value), key) == Get(context, key)
  {
  }

  /**
   (*Error).SetContext: on a nil receiver it does nothing; otherwise it stores
   `value` under a non-empty `name`. It returns the receiver.
   */
  method SetContext(e: Error?, name: string, value: string) returns (r: Error?)
    modifies e
    ensures r == e
    ensures e != null ==> e.msg == old(e.msg) && e.cause == old(e.cause)
    ensures e != null ==> e.context == Put(old(e.context), name, value)
  {
    if e == null {
      return e;
    }
    if |name| > 0 {
      e.context := e.context[name := value];
    }
    return e;
  }

  /** The option WithContext(name, value) returns: it calls SetContext(name, value). */
  datatype ContextFunc = WithContext(name: string, value: string)

  /** The context newError starts from: "function" holds the caller's name, if known. */
  function Seed(caller: string): map<string, string> {
    if |caller| > 0 then Put(map[], "function", caller) else map[]
  }

  /** The context after applying the options in order. */
  function ApplyOptions(context: map<string, string>, opts: seq<ContextFunc>): map<string, string> {
    if opts == [] then context
    else
      var last := opts[|opts| - 1];
      Put(ApplyOptions(context, opts[..|opts| - 1]), last.name, last.value)
  }

  /** The value of the last option that sets `key`, if any. */
  function LastValue(opts: seq<ContextFunc>, key: string): Option<string> {
    if opts == [] then None
    else if opts[|opts| - 1].name == key && |key| > 0 then Some(opts[|opts| - 1].value)
    else LastValue(opts[..|opts| - 1], key)
  }

  /**
   Options apply in order: a key gives the value of the last option that sets
   it, and keeps its earlier value when no option sets it. With the seeded
   context this means a WithContext("function", ...) overrides the caller.
   */
  lemma {:induction false} LaterOptionWins(context: map<string, string>, opts: seq<ContextFunc>, key: string)
    ensures Get(ApplyOptions(context, opts), key)
         == if LastValue(opts, key).Some? then LastValue(opts, key) else Get(context, key)
  {
    if opts != [] {
      LaterOptionWins(context, opts[..|opts| - 1], key);
    }
  }

  /** newError: a fresh *Error with Msg and Cause, then "function", then the options in order. */
  method NewError(cause: Err, msg: string, caller: string, opts: seq<ContextFunc>, id: nat) returns (we: Error)
    ensures fresh(we)
    ensures we.Value() == Node(id, msg, cause, ApplyOptions(Seed(caller), opts))
  {
    we := new Error(id, msg, cause);
    if |caller| > 0 {
      var same := SetContext(we, "function", caller);
    }
    for i := 0 to |opts|
      invariant we.Value() == Node(id, msg, cause, ApplyOptions(Seed(caller), opts[..i]))
    {
      var same := SetContext(we, opts[i].name, opts[i].value);
      assert opts[..i + 1][..i] == opts[..i];
    }
    assert opts[..|opts|] == opts;
  }

  /**
   New: nil for an empty message; otherwise a fresh *Error with that message,
   no cause, and the seeded context with the options applied.
   */
  method New(msg: string, caller: string, opts: seq<ContextFunc>, id: nat) returns (e: Error?)
    ensures e == null <==> |msg| == 0
    ensures e != null ==> fresh(e) && e.Value() == Node(id, msg, Nil, ApplyOptions(Seed(caller), opts))
  {
    if |msg| == 0 {
      return null;
    }
    e := NewError(Nil, msg, caller, opts, id);
  }

  /**
   Wrap: nil when err is nil; otherwise a fresh *Error whose Cause is err and
   whose Msg is msg.
   */
  method Wrap(err: Err, msg: string, caller: string, opts: seq<ContextFunc>, id: nat) returns (e: Error?)
    ensures e == null <==> err == Nil
    ensures e != null ==> fresh(e) && e.Value() == Node(id, msg, err, ApplyOptions(Seed(caller), opts))
  {
    if err == Nil {
      return null;
    }
    e := NewError(err, msg, caller, opts, id);
  }
}
