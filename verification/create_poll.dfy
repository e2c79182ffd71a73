/** The poll creation form: four option slots, the acceptance test on
    submit, and the filter that drops blank options. Strings are sequences of
    Unicode characters; every character `trim` removes is a single UTF-16
    code unit, so trimming reads the same on either. */
module CreatePoll {

  /** The characters `String.prototype.trim` removes: ECMA-262's WhiteSpace
      (TAB, VT, FF, SP, NBSP, ZWNBSP and the other space separators) and
      LineTerminator (LF, CR, LS, PS) code points. */
  predicate IsJsSpace(c: char) {
    c as int in JsSpaceCodes
  }

  const JsSpaceCodes: set<int> := {
    0x0009, 0x000B, 0x000C, 0x0020, 0x00A0, 0xFEFF, 0x1680,
    0x2000, 0x2001, 0x2002, 0x2003, 0x2004, 0x2005, 0x2006, 0x2007, 0x2008,
    0x2009, 0x200A, 0x202F, 0x205F, 0x3000,
    0x000A, 0x000D, 0x2028, 0x2029 }

  /** Every character of `s` is white space (the empty string included). */
  predicate IsBlank(s: string) {
    forall i :: 0 <= i < |s| ==> IsJsSpace(s[i])
  }

  /** `s` without its leading white space. */
  function TrimStart(s: string): (r: string)
    ensures |r| <= |s| && r == s[|s| - |r|..]
    ensures forall i :: 0 <= i < |s| - |r| ==> IsJsSpace(s[i])
    ensures r == [] || !IsJsSpace(r[0])
  {
    if |s| > 0 && IsJsSpace(s[0]) then TrimStart(s[1..]) else s
  }

  /** `s` without its trailing white space. */
  function TrimEnd(s: string): (r: string)
    ensures |r| <= |s| && r == s[..|r|]
    ensures forall i :: |r| <= i < |s| ==> IsJsSpace(s[i])
    ensures r == [] || !IsJsSpace(r[|r| - 1])
  {
    if |s| > 0 && IsJsSpace(s[|s| - 1]) then TrimEnd(s[..|s| - 1]) else s
  }

  /** `s.trim()`. */
  function Trim(s: string): string {
    TrimEnd(TrimStart(s))
  }

  /** `s.trim() !== ""` exactly when `s` has a character that is not white
      space. */
  lemma TrimEmptyIffBlank(s: string)
    ensures Trim(s) == [] <==> IsBlank(s)
  {
  }

  /** The filter's callback `opt.trim() !== ""` for one entry: the entry
      itself, untrimmed, when it is kept, and nothing otherwise. */
  function Kept(x: string): (r: seq<string>)
    ensures r == [] <==> IsBlank(x)
    ensures r != [] ==> r == [x]
  {
    TrimEmptyIffBlank(x);
    if Trim(x) != [] then [x] else []
  }

  /** `options.filter((opt) => opt.trim() !== "")`: the non-blank entries,
      in order and untrimmed. */
  function FilterOptions(opts: seq<string>): (r: seq<string>)
    ensures |r| <= |opts|
    ensures forall k :: 0 <= k < |r| ==> !IsBlank(r[k])
  {
    if |opts| == 0 then [] else Kept(opts[0]) + FilterOptions(opts[1..])
  }

  /** The filter keeps exactly the non-blank entries: everything it returns
      comes from the input, and every non-blank input entry is returned. */
  lemma {:induction false} FilterKeepsExactlyNonBlank(opts: seq<string>)
    ensures forall x :: x in FilterOptions(opts) <==> x in opts && !IsBlank(x)
    decreases |opts|
  {
    if |opts| > 0 {
      FilterKeepsExactlyNonBlank(opts[1..]);
      assert opts == [opts[0]] + opts[1..];
    }
  }

  /** Filtering works piece by piece; with `FilterOne` this pins the filter
      down completely. */
  lemma {:induction false} FilterAppend(a: seq<string>, b: seq<string>)
    ensures FilterOptions(a + b) == FilterOptions(a) + FilterOptions(b)
    decreases |a|
  {
    if |a| == 0 {
      assert a + b == b;
    } else {
      assert (a + b)[1..] == a[1..] + b;
      FilterAppend(a[1..], b);
    }
  }

  /** A single entry is kept, as it is, exactly when it is not blank. */
  lemma FilterOne(x: string)
    ensures FilterOptions([x]) == (if IsBlank(x) then [] else [x])
  {
    assert [x][1..] == [];
  }

  /** An option list with no blank entry passes the filter unchanged. */
  lemma {:induction false} FilterKeepsNonBlank(opts: seq<string>)
    requires forall k :: 0 <= k < |opts| ==> !IsBlank(opts[k])
    ensures FilterOptions(opts) == opts
    decreases |opts|
  {
    if |opts| > 0 {
      FilterKeepsNonBlank(opts[1..]);
      assert opts == [opts[0]] + opts[1..];
    }
  }

  /** The form's state: `question`, `options`, `isClicked`, `error`. */
  datatype Form = Form(question: string, options: seq<string>, isClicked: bool, error: string)

  /** Four empty option slots, nothing submitted. */
  const Initial: Form := Form("", ["", "", "", ""], false, "")

  const RejectionMessage: string := "Please fill in the question and at least two options."

  /** `handleOptionChange(index, value)`: a copy of the slots with one
      replaced. The page only passes the indices of its four inputs. */
  function HandleOptionChange(f: Form, index: nat, value: string): (r: Form)
    requires index < |f.options|
    ensures |r.options| == |f.options| && r.options[index] == value
    ensures forall k :: 0 <= k < |f.options| && k != index ==> r.options[k] == f.options[k]
    ensures r.question == f.question && r.isClicked == f.isClicked && r.error == f.error
  {
    f.(options := f.options[index := value])
  }

  /** The question input's `onChange`. */
  function SetQuestion(f: Form, q: string): (r: Form)
    ensures r.question == q && r.options == f.options
    ensures r.isClicked == f.isClicked && r.error == f.error
  {
    f.(question := q)
  }

  /** A keystroke in one of the form's inputs. */
  datatype Edit = EditQuestion(text: string) | EditOption(index: nat, text: string)

  /** Every option edit addresses one of the form's slots. */
  predicate EditsInRange(edits: seq<Edit>, slots: nat) {
    forall k :: 0 <= k < |edits| && edits[k].EditOption? ==> edits[k].index < slots
  }

  function ApplyEdits(f: Form, edits: seq<Edit>): (r: Form)
    requires EditsInRange(edits, |f.options|)
    ensures |r.options| == |f.options|
    decreases |edits|
  {
    if |edits| == 0 then f
    else
      var g := match edits[0]
        case EditQuestion(q) => SetQuestion(f, q)
        case EditOption(i, v) => HandleOptionChange(f, i, v);
      ApplyEdits(g, edits[1..])
  }

  /** Whatever is typed, the form has four slots, so a poll draft never has
      more than four options. */
  lemma AtMostFourOptions(edits: seq<Edit>)
    requires EditsInRange(edits, 4)
    ensures |ApplyEdits(Initial, edits).options| == 4
    ensures |FilterOptions(ApplyEdits(Initial, edits).options)| <= 4
  {
  }

  /** The acceptance test as written: the raw question is not empty and the
      raw second slot is not empty (`options[1] !== ""`, which an absent
      second slot also passes). The first slot is not looked at. */
  predicate Accepts(f: Form) {
    f.question != "" && (|f.options| <= 1 || f.options[1] != "")
  }

  /** The question and option list the submit handler builds. */
  datatype Draft = Draft(question: string, options: seq<string>)

  /** `onSubmit`: on acceptance `isClicked` becomes true; otherwise the error
      message is set. Either way the draft is built from the raw question and
      the filtered options. */
  function Submit(f: Form): (r: (Form, Draft))
    ensures r.0.isClicked <==> f.isClicked || Accepts(f)
    ensures Accepts(f) ==> r.0.error == f.error
    ensures !Accepts(f) ==> r.0.error == RejectionMessage && r.0.isClicked == f.isClicked
    ensures r.0.question == f.question && r.0.options == f.options
    ensures r.1.question == f.question
    ensures r.1.options == FilterOptions(f.options)
  {
    var f' := if Accepts(f) then f.(isClicked := true) else f.(error := RejectionMessage);
    (f', Draft(f.question, FilterOptions(f.options)))
  }

  /** The filter peels one entry at a time off the front. */
  lemma FilterCons(x: string, rest: seq<string>)
    ensures FilterOptions([x] + rest) == Kept(x) + FilterOptions(rest)
  {
    assert ([x] + rest)[1..] == rest;
  }

  /** A four-slot list, built up from the back. */
  lemma FourSlotsAsCons(a: string, b: string, c: string, d: string)
    ensures [a, b, c, d] == [a] + ([b] + ([c] + ([d] + [])))
  {
  }

  /** The filter on the form's four slots. */
  lemma FilterFourSlots(a: string, b: string, c: string, d: string)
    ensures FilterOptions([a, b, c, d]) == Kept(a) + (Kept(b) + (Kept(c) + Kept(d)))
  {
    FourSlotsAsCons(a, b, c, d);
    var l3: seq<string> := [d] + [];
    var l2 := [c] + l3;
    var l1 := [b] + l2;
    FilterCons(d, []);
    FilterCons(c, l3);
    FilterCons(b, l2);
    FilterCons(a, l1);
  }

  /** As written, the form accepts a poll with a single option, provided it
      sits in the second slot... */
  lemma AcceptsSingleOption(q: string, b: string)
    requires q != "" && !IsBlank(b)
    ensures var f := Form(q, ["", b, "", ""], false, "");
            Accepts(f) && Submit(f).1.options == [b]
  {
    var opts: seq<string> := ["", b, "", ""];
    assert b != "" by { assert IsBlank(""); }
    assert opts[1] == b;
    FilterFourSlots("", b, "", "");
    var ke, kb := Kept(""), Kept(b);
    assert ke == [] && kb == [b];
    assert ke + (kb + (ke + ke)) == [b];
    assert FilterOptions(opts) == [b];
  }

  /** ...rejects two options when the second slot is the empty one... */
  lemma RejectsTwoOptions(q: string, a: string, c: string)
    requires q != "" && !IsBlank(a) && !IsBlank(c)
    ensures var f := Form(q, [a, "", c, ""], false, "");
            !Accepts(f) && Submit(f).1.options == [a, c]
  {
    var opts: seq<string> := [a, "", c, ""];
    assert opts[1] == "";
    FilterFourSlots(a, "", c, "");
    var ka, ke, kc := Kept(a), Kept(""), Kept(c);
    assert ka == [a] && ke == [] && kc == [c];
    assert ka + (ke + (kc + ke)) == [a, c];
    assert FilterOptions(opts) == [a, c];
  }

  /** ...and accepts a question of spaces only. */
  lemma AcceptsBlankQuestion()
    ensures var f := Form(" ", ["A", "B", "", ""], false, "");
            Accepts(f) && IsBlank(f.question)
  {
  }

  /** The acceptance test the rejection message describes: a non-blank
      question and at least two non-blank options. */
  predicate AcceptsIntended(f: Form) {
    Trim(f.question) != [] && |FilterOptions(f.options)| >= 2
  }

  /** `onSubmit` with the intended acceptance test. */
  function SubmitIntended(f: Form): (r: (Form, Draft))
    ensures r.0.isClicked <==> f.isClicked || (!IsBlank(f.question) && |r.1.options| >= 2)
    ensures !AcceptsIntended(f) ==> r.0.error == RejectionMessage && r.0.isClicked == f.isClicked
    ensures r.0.question == f.question && r.0.options == f.options
    ensures r.1.options == FilterOptions(f.options)
  {
    TrimEmptyIffBlank(f.question);
    var f' := if AcceptsIntended(f) then f.(isClicked := true) else f.(error := RejectionMessage);
    (f', Draft(f.question, FilterOptions(f.options)))
  }
}
