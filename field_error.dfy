/** The body of the FieldError paragraph under a form field: the messages of the
    field's validation errors joined with ", ", or the element's own text when it is
    given no error list; nothing is rendered when that body is empty. */
module FieldError {
  import opened Wrappers
  import opened Text
  import RegisterForm

  /** One entry of the `errors` list: a string, an object with a `message` property
      (a missing message is undefined), or any other value with the text String()
      gives it. */
  datatype Entry = Plain(text: string) | WithMessage(message: Option<string>) | OtherEntry(shown: string)

  /** The text an entry contributes before empty texts are dropped. */
  function EntryText(e: Entry): string {
    match e
    case Plain(t) => t
    case WithMessage(m) => if m.Some? then m.value else "undefined"
    case OtherEntry(s) => s
  }

  /** `.filter(Boolean)` after the map: the non-empty texts, in order. */
  function Kept(es: seq<Entry>): (r: seq<string>)
    ensures forall k :: 0 <= k < |r| ==> r[k] != ""
    ensures |r| <= |es|
    ensures r == [] <==> forall k :: 0 <= k < |es| ==> EntryText(es[k]) == ""
    ensures (forall k :: 0 <= k < |es| ==> EntryText(es[k]) != "") ==>
      |r| == |es| && forall k :: 0 <= k < |es| ==> r[k] == EntryText(es[k])
  {
    if es == [] then []
    else
      var rest := Kept(es[1..]);
      assert forall k :: 1 <= k < |es| ==> es[k] == es[1..][k - 1];
      if EntryText(es[0]) == "" then rest else [EntryText(es[0])] + rest
  }

  /** One entry is kept exactly when its text is non-empty. */
  lemma KeptOne(e: Entry)
    ensures Kept([e]) == if EntryText(e) == "" then [] else [EntryText(e)]
  {
  }

  /** The filter works entry by entry: a list's kept texts are its halves' kept texts,
      in order. With KeptOne this fixes Kept on every list. */
  lemma {:induction false} KeptAppend(a: seq<Entry>, b: seq<Entry>)
    ensures Kept(a + b) == Kept(a) + Kept(b)
  {
    if a == [] {
      assert a + b == b;
    } else {
      assert (a + b)[1..] == a[1..] + b;
      KeptAppend(a[1..], b);
    }
  }

  /** The joined non-empty parts are empty only when there are none. */
  lemma JoinNonEmpty(parts: seq<string>)
    requires parts != [] && parts[0] != ""
    ensures Join(parts, ", ") != ""
  {
    JoinOccurs(parts, ", ", 0);
  }

  /** FieldError's body; None when the component renders nothing. A given list,
      even an empty one, takes the place of the children. */
  function Body(errors: Option<seq<Entry>>, children: Option<string>): (r: Option<string>)
    ensures r.Some? ==> r.value != ""
    ensures errors.None? ==> r == (if children.Some? && children.value != "" then children else None)
    ensures errors.Some? ==>
      (r.None? <==> forall k :: 0 <= k < |errors.value| ==> EntryText(errors.value[k]) == "")
    ensures errors.Some? && r.Some? ==> r.value == Join(Kept(errors.value), ", ")
  {
    match errors
    case Some(es) =>
      var parts := Kept(es);
      if parts == [] then None
      else
        JoinNonEmpty(parts);
        Some(Join(parts, ", "))
    case None =>
      if children.Some? && children.value != "" then children else None
  }

  /** Every non-empty error text is shown, in the order of the list. */
  lemma EveryMessageShown(es: seq<Entry>, k: nat)
    requires k < |es| && forall j :: 0 <= j < |es| ==> EntryText(es[j]) != ""
    ensures Body(Some(es), None).Some?
    ensures OccursAt(Body(Some(es), None).value, EntryText(es[k]), JoinOffset(Kept(es), ", ", k))
  {
    JoinOccurs(Kept(es), ", ", k);
  }

  /** The form's errors as FieldError receives them: the issue objects, whose
      messages are their texts. */
  function FromIssues(issues: seq<RegisterForm.Issue>): (r: seq<Entry>)
    ensures |r| == |issues|
    ensures forall k :: 0 <= k < |issues| ==> r[k] == WithMessage(Some(issues[k].message))
  {
    seq(|issues|, k requires 0 <= k < |issues| => WithMessage(Some(issues[k].message)))
  }

  /** An empty name field shows both of its failed rules, in the schema's order. */
  lemma EmptyNameMessage()
    ensures Body(Some(FromIssues(RegisterForm.NameIssues(""))), None)
      == Some("Name is required" + ", " + "Name must be at least 2 characters")
  {
    var issues := RegisterForm.NameIssues("");
    assert RegisterForm.JsLength("") == 0;
    assert issues == [RegisterForm.Issue("name", "Name is required"),
                      RegisterForm.Issue("name", "Name must be at least 2 characters")];
    var es := FromIssues(issues);
    var parts := ["Name is required", "Name must be at least 2 characters"];
    assert Kept(es) == parts;
    assert Join(parts[1..], ", ") == "Name must be at least 2 characters";
    assert Join(parts, ", ") == "Name is required" + ", " + "Name must be at least 2 characters";
    assert Body(Some(es), None) == Some(Join(parts, ", "));
  }
}
