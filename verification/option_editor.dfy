/** The option-list editor of the room creation form. */
module OptionEditor {
  import opened Seqs
  import opened Text

  const MinOptions: nat := 2
  const MaxOptions: nat := 5
  const MaxMessage := "You can have a maximum of 5 options."
  const MinMessage := "You must have at least 2 options."
  const TooFewMessage := "Please provide at least two options."

  /** The form's option inputs and its message line. */
  datatype Form = Form(options: seq<string>, message: string)

  predicate InBounds(options: seq<string>)
  {
    MinOptions <= |options| <= MaxOptions
  }

  /** The form as first rendered: two empty option inputs and no message. */
  function Initial(): (f: Form)
    ensures InBounds(f.options)
    ensures forall i :: 0 <= i < |f.options| ==> f.options[i] == ""
    ensures f.message == ""
  {
    Form(["", ""], "")
  }

  /** `handleOptionChange`: input `i` now holds `v`. Inputs are rendered one per existing
      entry, so `i` is always an index of the list. */
  function ChangeOption(f: Form, i: int, v: string): (r: Form)
    requires 0 <= i < |f.options|
    ensures |r.options| == |f.options|
    ensures r.options[i] == v
    ensures forall j :: 0 <= j < |f.options| && j != i ==> r.options[j] == f.options[j]
    ensures r.message == f.message
  {
    f.(options := f.options[i := v])
  }

  /** `handleAddOption`: a new empty input while there are fewer than five, else the limit message. */
  function AddOption(f: Form): (r: Form)
    ensures |f.options| < MaxOptions ==> r.options == f.options + [""] && r.message == f.message
    ensures |f.options| >= MaxOptions ==> r.options == f.options && r.message == MaxMessage
  {
    if |f.options| < MaxOptions then f.(options := f.options + [""])
    else f.(message := MaxMessage)
  }

  /** `options.filter((_, i) => i !== index)`: every entry except the one at `index`. */
  function WithoutIndex(xs: seq<string>, index: int): (ys: seq<string>)
    ensures 0 <= index < |xs| ==> ys == xs[..index] + xs[index + 1..]
    ensures !(0 <= index < |xs|) ==> ys == xs
  {
    if |xs| == 0 then []
    else
      var init := WithoutIndex(xs[..|xs| - 1], index);
      if index == |xs| - 1 then init else init + [xs[|xs| - 1]]
  }

  /** `handleRemoveOption`: drops input `index` while there are more than two, else the minimum message. */
  function RemoveOption(f: Form, index: int): (r: Form)
    ensures |f.options| > MinOptions && 0 <= index < |f.options| ==>
              |r.options| == |f.options| - 1 &&
              (forall j :: 0 <= j < index ==> r.options[j] == f.options[j]) &&
              (forall j :: index < j < |f.options| ==> r.options[j - 1] == f.options[j]) &&
              r.message == f.message
    ensures |f.options| > MinOptions && !(0 <= index < |f.options|) ==> r == f
    ensures |f.options| <= MinOptions ==> r.options == f.options && r.message == MinMessage
  {
    if |f.options| > MinOptions then f.(options := WithoutIndex(f.options, index))
    else f.(message := MinMessage)
  }

  /** An edit the form lets the user make. */
  datatype Edit = Change(index: int, value: string) | Add | Remove(index: int)

  /** A change is only possible on a rendered input. Add and remove are always allowed here, which
      over-approximates the form: it shows the remove buttons only above two options and the add
      button only below five, so the message branches cannot be reached from the page. */
  predicate Enabled(f: Form, e: Edit)
  {
    e.Change? ==> 0 <= e.index < |f.options|
  }

  function Apply(f: Form, e: Edit): Form
    requires Enabled(f, e)
  {
    match e
    case Change(i, v) => ChangeOption(f, i, v)
    case Add => AddOption(f)
    case Remove(i) => RemoveOption(f, i)
  }

  /** Every edit of the sequence is possible when its turn comes. */
  predicate Possible(f: Form, edits: seq<Edit>)
    decreases |edits|
  {
    |edits| == 0 || (Enabled(f, edits[0]) && Possible(Apply(f, edits[0]), edits[1..]))
  }

  function Run(f: Form, edits: seq<Edit>): Form
    requires Possible(f, edits)
    decreases |edits|
  {
    if |edits| == 0 then f else Run(Apply(f, edits[0]), edits[1..])
  }

  /** Each single edit keeps between two and five options. */
  lemma ApplyKeepsBounds(f: Form, e: Edit)
    requires InBounds(f.options)
    requires Enabled(f, e)
    ensures InBounds(Apply(f, e).options)
  {
  }

  /** Any sequence of edits from a form with two to five options keeps two to five options;
      in particular every form reachable from the initial one does. */
  lemma {:induction false} RunKeepsBounds(f: Form, edits: seq<Edit>)
    requires InBounds(f.options)
    requires Possible(f, edits)
    ensures InBounds(Run(f, edits).options)
    decreases |edits|
  {
    if |edits| > 0 {
      ApplyKeepsBounds(f, edits[0]);
      RunKeepsBounds(Apply(f, edits[0]), edits[1..]);
    }
  }

  /** `opt.trim() !== ""`. */
  function NotBlank(): string -> bool
  {
    (o: string) => Trim(o) != ""
  }

  /** `validOptions`: the entries that are not blank, in order. */
  function ValidOptions(options: seq<string>): seq<string>
  {
    Filter(options, NotBlank())
  }

  /** What pressing "Create Room" does. */
  datatype Submission = RedirectToAuth | Refused(message: string) | Post(options: seq<string>)

  /** `handleSubmit`: without a stored token the user is sent to sign in; with fewer than two
      non-blank options the submission is refused; otherwise the non-blank options are posted. */
  function Submit(f: Form, hasToken: bool): (r: Submission)
    ensures !hasToken <==> r == RedirectToAuth
    ensures hasToken ==> (r.Refused? <==> |ValidOptions(f.options)| < MinOptions)
    ensures r.Refused? ==> r.message == TooFewMessage
    ensures r.Post? ==> r.options == ValidOptions(f.options) && MinOptions <= |r.options| <= |f.options|
  {
    if !hasToken then RedirectToAuth
    else
      var valid := ValidOptions(f.options);
      if |valid| < MinOptions then Refused(TooFewMessage) else Post(valid)
  }

  /** The posted options are exactly the entries holding a non-whitespace character, each once,
      in the order of the inputs: posted entry `k` is input `ix[k]`, the `ix` increase, and an
      input's index is among them iff the input is not all whitespace. */
  lemma PostedOptionsExact(options: seq<string>)
    ensures var v := ValidOptions(options);
            var ix := Positions(options, NotBlank());
            && |v| == |ix|
            && StrictlyIncreasing(ix)
            && (forall k :: 0 <= k < |v| ==> ix[k] < |options| && v[k] == options[ix[k]])
            && (forall i :: 0 <= i < |options| ==>
                  (i in ix <==> exists c :: 0 <= c < |options[i]| && !IsWhitespace(options[i][c])))
  {
    FilterExact(options, NotBlank());
    forall i | 0 <= i < |options|
      ensures NotBlank()(options[i]) <==> exists c :: 0 <= c < |options[i]| && !IsWhitespace(options[i][c])
    {
      TrimEmptyIff(options[i]);
    }
  }

  /** A submission from a reachable form posts two to five options. */
  lemma PostedCountInBounds(f: Form, hasToken: bool)
    requires InBounds(f.options)
    ensures Submit(f, hasToken).Post? ==> InBounds(Submit(f, hasToken).options)
  {
  }
}
