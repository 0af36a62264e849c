/**
 The multi-error aggregate `*errs.Errors`: a list of non-nil errors that
 `Join` builds, `Add` appends to in place, and the renderers join with
 newlines or write as a JSON array. The read-write mutex guarding the list is
 not modelled: every operation runs alone.
 */
module ErrList {
  import opened Encoding
  import Errs

  /** `%T` of an aggregate. */
  const ListTypeName: string := "*errs.Errors"

  /** The aggregate. `errs` is the slice its methods read and append to. */
  class Errors {
    var errs: seq<Errs.Err>

    /** `&Errors{}`. */
    constructor ()
      ensures errs == [] && Valid()
    {
      errs := [];
    }

    /** Join and Add never store a nil error, so no aggregate holds one. */
    ghost predicate Valid()
      reads this
    {
      forall i | 0 <= i < |errs| :: errs[i] != Errs.Nil
    }
  }

  // ---------------------------------------------------------------------
  // Filtering nils: Join, Add
  // ---------------------------------------------------------------------

  /** The non-nil arguments, in argument order. */
  function NonNil(errlist: seq<Errs.Err>): (r: seq<Errs.Err>)
    ensures forall i | 0 <= i < |r| :: r[i] != Errs.Nil
  {
    if errlist == [] then []
    else
      var init, last := errlist[..|errlist| - 1], errlist[|errlist| - 1];
      NonNil(init) + (if last != Errs.Nil then [last] else [])
  }

  /** The kept errors are exactly the non-nil arguments. */
  lemma {:induction false} NonNilMembers(errlist: seq<Errs.Err>)
    ensures forall e :: e in NonNil(errlist) <==> e in errlist && e != Errs.Nil
    decreases |errlist|
  {
    if errlist != [] {
      var init, last := errlist[..|errlist| - 1], errlist[|errlist| - 1];
      NonNilMembers(init);
      assert errlist == init + [last];
    }
  }

  /** As many errors are kept as there are non-nil arguments. */
  lemma {:induction false} NonNilCount(errlist: seq<Errs.Err>)
    ensures |NonNil(errlist)| == |errlist| - multiset(errlist)[Errs.Nil]
    decreases |errlist|
  {
    if errlist != [] {
      var init := errlist[..|errlist| - 1];
      NonNilCount(init);
      assert errlist == init + [errlist[|errlist| - 1]];
    }
  }

  /** Filtering distributes over concatenation: the kept errors stay in order. */
  lemma {:induction false} NonNilAppend(a: seq<Errs.Err>, b: seq<Errs.Err>)
    ensures NonNil(a + b) == NonNil(a) + NonNil(b)
    decreases |b|
  {
    if b == [] {
      assert a + b == a;
    } else {
      var init := b[..|b| - 1];
      assert (a + b)[..|a + b| - 1] == a + init;
      NonNilAppend(a, init);
    }
  }

  /** A list without nils is kept whole. */
  lemma {:induction false} NonNilKeepsAll(errlist: seq<Errs.Err>)
    requires forall i | 0 <= i < |errlist| :: errlist[i] != Errs.Nil
    ensures NonNil(errlist) == errlist
    decreases |errlist|
  {
    if errlist != [] {
      NonNilKeepsAll(errlist[..|errlist| - 1]);
    }
  }

  /** Nothing is kept exactly when every argument is nil. */
  lemma NonNilEmpty(errlist: seq<Errs.Err>)
    ensures NonNil(errlist) == [] <==> forall i | 0 <= i < |errlist| :: errlist[i] == Errs.Nil
  {
    NonNilMembers(errlist);
    if NonNil(errlist) == [] {
      forall i | 0 <= i < |errlist| ensures errlist[i] == Errs.Nil {
        assert errlist[i] in errlist;
      }
    } else {
      assert NonNil(errlist)[0] in errlist;
    }
  }

  lemma NonNilStep(errlist: seq<Errs.Err>, i: nat)
    requires i < |errlist|
    ensures NonNil(errlist[..i + 1]) == NonNil(errlist[..i]) + (if errlist[i] != Errs.Nil then [errlist[i]] else [])
  {
    assert errlist[..i + 1][..i] == errlist[..i];
  }

  /**
   Join: nil when no argument is a non-nil error (including no arguments at
   all); otherwise a fresh aggregate holding exactly the non-nil arguments in
   order.
   */
  method Join(errlist: seq<Errs.Err>) returns (es: Errors?)
    ensures es == null <==> forall i | 0 <= i < |errlist| :: errlist[i] == Errs.Nil
    ensures es != null ==> fresh(es) && es.errs == NonNil(errlist) && es.Valid()
  {
    if |errlist| == 0 {
      return null;
    }
    var ct := 0;
    for i := 0 to |errlist|
      invariant ct == |NonNil(errlist[..i])|
    {
      NonNilStep(errlist, i);
      if errlist[i] != Errs.Nil {
        ct := ct + 1;
      }
    }
    assert errlist[..|errlist|] == errlist;
    NonNilEmpty(errlist);
    if ct == 0 {
      return null;
    }
    es := new Errors();
    for i := 0 to |errlist|
      invariant es.errs == NonNil(errlist[..i])
    {
      NonNilStep(errlist, i);
      if errlist[i] != Errs.Nil {
        es.errs := es.errs + [errlist[i]];
      }
    }
  }

  /**
   Add: on a nil receiver nothing happens; otherwise the non-nil arguments are
   appended in order after the items already held, which stay as they were.
   */
  method Add(es: Errors?, errlist: seq<Errs.Err>)
    requires es != null ==> es.Valid()
    modifies es
    ensures es != null ==> es.errs == old(es.errs) + NonNil(errlist) && es.Valid()
  {
    if es == null {
      return;
    }
    ghost var before := es.errs;
    for i := 0 to |errlist|
      invariant es.errs == before + NonNil(errlist[..i])
    {
      NonNilStep(errlist, i);
      if errlist[i] != Errs.Nil {
        es.errs := es.errs + [errlist[i]];
      }
    }
    assert errlist[..|errlist|] == errlist;
    ghost var added := NonNil(errlist);
    assert forall i | |before| <= i < |es.errs| :: es.errs[i] == added[i - |before|];
  }

  /** An Add grows the list by exactly the number of non-nil arguments. */
  lemma AddLength(held: seq<Errs.Err>, errlist: seq<Errs.Err>)
    ensures |held + NonNil(errlist)| == |held| + |errlist| - multiset(errlist)[Errs.Nil]
  {
    NonNilCount(errlist);
  }

  /**
   Adding errors one call at a time collects the same list as adding them in
   one call.
   */
  lemma AddOneByOne(held: seq<Errs.Err>, a: seq<Errs.Err>, b: seq<Errs.Err>)
    ensures held + NonNil(a) + NonNil(b) == held + NonNil(a + b)
  {
    NonNilAppend(a, b);
  }

  /**
   ErrorOrNil: nil for a nil receiver or an empty list, the receiver itself
   otherwise.
   */
  method ErrorOrNil(es: Errors?) returns (r: Errors?)
    ensures r == null <==> es == null || |es.errs| == 0
    ensures r != null ==> r == es
  {
    if es == null {
      return null;
    }
    if |es.errs| == 0 {
      return null;
    }
    return es;
  }

  // ---------------------------------------------------------------------
  // Rendering: Error, String, GoString
  // ---------------------------------------------------------------------

  /** The items' Error() texts, in stored order. */
  function Texts(errs: seq<Errs.Err>): seq<string> {
    seq(|errs|, i requires 0 <= i < |errs| => Errs.Text(errs[i]))
  }

  /** The text of an aggregate holding `errs`. */
  function ListText(errs: seq<Errs.Err>): string {
    if errs == [] then Errs.NilAngle else Encoding.Join(Texts(errs), "\n")
  }

  /** The list a possibly nil receiver holds. */
  function Held(es: Errors?): seq<Errs.Err>
    reads es
  {
    if es == null then [] else es.errs
  }

  /**
   (*Errors).Error: "<nil>" for a nil receiver or an empty list; otherwise the
   items' texts in stored order, one per line.
   */
  method Error(es: Errors?) returns (s: string)
    ensures s == ListText(Held(es))
  {
    if es == null || |es.errs| == 0 {
      return Errs.NilAngle;
    }
    var errs := es.errs;
    s := "";
    for i := 0 to |errs|
      invariant i == 0 ==> s == ""
      invariant i > 0 ==> s == Encoding.Join(Texts(errs[..i]), "\n")
    {
      assert Texts(errs[..i + 1])[..i] == Texts(errs[..i]);
      if i > 0 {
        s := s + "\n";
      }
      s := s + Errs.Text(errs[i]);
    }
    assert errs[..|errs|] == errs;
  }

  /** (*Errors).String is Error. */
  method String(es: Errors?) returns (s: string)
    ensures s == ListText(Held(es))
  {
    s := Error(es);
  }

  /**
   The lines of an aggregate's text are its items' texts, as long as no item's
   text spans several lines.
   */
  lemma ListTextLines(errs: seq<Errs.Err>)
    requires errs != []
    requires forall i | 0 <= i < |errs| :: '\n' !in Errs.Text(errs[i])
    ensures Split(ListText(errs), '\n') == Texts(errs)
  {
    SplitJoin(Texts(errs), '\n');
  }

  /**
   An aggregate of one item reads as that item, and an empty one as "<nil>",
   the same text a nil receiver gives.
   */
  lemma ListTextEdges(e: Errs.Err)
    ensures ListText([e]) == Errs.Text(e)
    ensures ListText([]) == Errs.Text(Errs.Nil)
  {
  }

  /**
   (*Errors).GoString: "<nil>" for a nil receiver or an empty list; otherwise
   `%T{Errs:%#v}`. The Go-syntax text of the list comes from the host
   formatter and is a parameter here.
   */
  method GoString(es: Errors?, listSyntax: string) returns (s: string)
    ensures |Held(es)| == 0 ==> s == Errs.NilAngle
    ensures |Held(es)| > 0 ==> s == ListTypeName + "{Errs:" + listSyntax + "}"
  {
    if es == null || |es.errs| == 0 {
      return Errs.NilAngle;
    }
    s := ListTypeName + "{Errs:" + listSyntax + "}";
  }

  // ---------------------------------------------------------------------
  // EncodeJSON
  // ---------------------------------------------------------------------

  /** One item of the "Errs" array: the free EncodeJSON, HTML-escaped once more. */
  function ItemJSON(e: Errs.Err): string {
    HtmlEscape(Errs.EncodeJSON(e))
  }

  /** The elements of the "Errs" array, in stored order. */
  function Items(errs: seq<Errs.Err>): seq<string> {
    seq(|errs|, i requires 0 <= i < |errs| => ItemJSON(errs[i]))
  }

  /** The members the aggregate writes: Type, then Errs when the list is non-empty. */
  function ListMembers(errs: seq<Errs.Err>): seq<Errs.Member> {
    [Errs.Fixed("Type", Quote(ListTypeName))]
    + (if errs != [] then [Errs.Fixed("Errs", "[" + Encoding.Join(Items(errs), ",") + "]")] else [])
  }

  /**
   (*Errors).EncodeJSON: "null" for a nil receiver; otherwise an object with
   Type and, when the list is non-empty, Errs: one rendered element per item
   in stored order.
   */
  method EncodeJSON(es: Errors?) returns (s: string)
    ensures es == null ==> s == "null"
    ensures es != null ==> s == Errs.RenderObject(ListMembers(es.errs))
  {
    if es == null {
      return "null";
    }
    var errs := es.errs;
    var t := Quote(ListTypeName);
    var elms := ["\"Type\":" + t];
    var x := "[]";
    if |errs| > 0 {
      var items := RenderItems(errs);
      x := "[" + Encoding.Join(items, ",") + "]";
      elms := elms + ["\"Errs\":" + x];
    }
    ListMemberTexts(t, |errs| > 0, x);
    s := "{" + Encoding.Join(elms, ",") + "}";
  }

  /** The loop of EncodeJSON that renders the items one by one. */
  method RenderItems(errs: seq<Errs.Err>) returns (items: seq<string>)
    ensures items == Items(errs)
  {
    items := [];
    for i := 0 to |errs|
      invariant items == Items(errs[..i])
    {
      items := items + [HtmlEscape(Errs.EncodeJSON(errs[i]))];
    }
    assert errs[..|errs|] == errs;
  }

  lemma ListMemberTexts(t: string, present: bool, x: string)
    ensures Errs.MemberTexts([Errs.Fixed("Type", t)] + (if present then [Errs.Fixed("Errs", x)] else []))
         == ["\"Type\":" + t] + (if present then ["\"Errs\":" + x] else [])
  {
    Errs.SingleMember(Errs.Fixed("Type", t));
    assert "\"" + "Type" + "\":" + t == "\"Type\":" + t;
    if present {
      Errs.SingleMember(Errs.Fixed("Errs", x));
      Errs.MemberTextsAppend([Errs.Fixed("Type", t)], [Errs.Fixed("Errs", x)]);
      assert "\"" + "Errs" + "\":" + x == "\"Errs\":" + x;
    }
  }

  /**
   The aggregate's JSON names Type always and Errs exactly when the list is
   non-empty, with one array element per item.
   */
  lemma ListJSONShape(errs: seq<Errs.Err>)
    ensures Errs.Keys(ListMembers(errs)) == ["Type"] + (if errs != [] then ["Errs"] else [])
    ensures |Items(errs)| == |errs|
  {
    ListKeys(Quote(ListTypeName), errs != [], "[" + Encoding.Join(Items(errs), ",") + "]");
  }

  lemma ListKeys(typeName: string, present: bool, x: string)
    ensures Errs.Keys([Errs.Fixed("Type", typeName)] + (if present then [Errs.Fixed("Errs", x)] else []))
         == ["Type"] + (if present then ["Errs"] else [])
  {
    var t := [Errs.Fixed("Type", typeName)];
    Errs.KeysOf(t, ["Type"]);
    Errs.OptionalKeys(present, "Errs", x);
    Errs.KeysAppend(t, if present then [Errs.Fixed("Errs", x)] else []);
  }

  /**
   The second HTML escaping an item goes through changes nothing: every item
   is already escaped as EncodeJSON wrote it, as long as its chain's type
   names need no escaping.
   */
  lemma ItemIsEncodeJSON(e: Errs.Err)
    requires Errs.SafeTypeNames(e)
    ensures ItemJSON(e) == Errs.EncodeJSON(e)
  {
    Errs.EncodeJSONIsSafe(e);
    HtmlEscapeKeepsSafe(Errs.EncodeJSON(e));
  }

  // ---------------------------------------------------------------------
  // Unwrap
  // ---------------------------------------------------------------------

  /**
   (*Errors).Unwrap: nil for a nil receiver or an empty list; otherwise a
   fresh copy of the list.
   */
  method Unwrap(es: Errors?) returns (cpy: array?<Errs.Err>)
    requires es != null ==> es.Valid()
    ensures |Held(es)| == 0 ==> cpy == null
    ensures |Held(es)| > 0 ==> cpy != null && fresh(cpy) && cpy[..] == es.errs
    ensures cpy != null ==> forall i | 0 <= i < cpy.Length :: cpy[i] != Errs.Nil
  {
    if es == null || |es.errs| == 0 {
      return null;
    }
    cpy := new Errs.Err[|es.errs|];
    for i := 0 to cpy.Length
      invariant cpy[..i] == es.errs[..i]
    {
      cpy[i] := es.errs[i];
    }
    assert cpy[..] == cpy[..cpy.Length];
  }

  /**
   The copy Unwrap returns and the aggregate are independent: writing to the
   copy does not change the aggregate, and a later Add does not change the
   copy.
   */
  method UnwrapIsCopy(es: Errors, x: Errs.Err) returns (cpy: array<Errs.Err>)
    requires es.Valid() && |es.errs| > 0 && x != Errs.Nil
    modifies es
    ensures cpy[..] == [x] + old(es.errs)[1..]
    ensures es.errs == old(es.errs) + [x]
  {
    var c := Unwrap(es);
    cpy := c;
    cpy[0] := x;
    assert cpy[..] == [x] + old(es.errs)[1..];
    NonNilKeepsAll([x]);
    Add(es, [x]);
  }

  /**
   Adding n non-nil errors one at a time to an empty aggregate leaves n items
   for Unwrap to copy.
   */
  method CountAfterAdds(added: seq<Errs.Err>) returns (count: nat)
    requires forall i | 0 <= i < |added| :: added[i] != Errs.Nil
    ensures count == |added|
  {
    var es := new Errors();
    for i := 0 to |added|
      invariant es.errs == added[..i]
      invariant es.Valid()
    {
      var one := [added[i]];
      NonNilKeepsAll(one);
      Add(es, one);
      assert added[..i + 1] == added[..i] + one;
    }
    assert added[..|added|] == added;
    var cpy := Unwrap(es);
    if cpy == null {
      count := 0;
    } else {
      count := cpy.Length;
    }
  }
}
