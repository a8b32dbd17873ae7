/**
 * The lookups inside `showToast(message, type)`: the icon chosen by the
 * `switch`, the colour read from the `colors` object, and the second stop of
 * the progress-bar gradient.
 */
module Toasts {
  import opened Wrappers

  const Success: string := "success"
  const Error: string := "error"
  const Warning: string := "warning"
  const Info: string := "info"

  /** The four kinds the `colors` object has an entry for. */
  const Kinds: set<string> := {Success, Error, Warning, Info}

  const SuccessIcon: string := "<i class=\"fas fa-check-circle\"></i>"
  const ErrorIcon: string := "<i class=\"fas fa-exclamation-circle\"></i>"
  const WarningIcon: string := "<i class=\"fas fa-exclamation-triangle\"></i>"
  const InfoIcon: string := "<i class=\"fas fa-info-circle\"></i>"

  const SuccessColor: string := "#4cc9f0"
  const ErrorColor: string := "#ef233c"
  const WarningColor: string := "#f8961e"
  const InfoColor: string := "#4361ee"

  const SuccessAccent: string := "#3a0ca3"
  const OtherAccent: string := "#f72585"

  /** The `switch (type)` at lines 157-169: success, error and warning have
      their own icons; every other kind, "info" included, takes the `default`. */
  function Icon(kind: string): (html: string)
    ensures html == InfoIcon <==> kind !in {Success, Error, Warning}
  {
    if kind == Success then SuccessIcon
    else if kind == Error then ErrorIcon
    else if kind == Warning then WarningIcon
    else InfoIcon
  }

  /** `colors[type]`: a colour exactly for the four kinds of the table, None
      (no valid colour) for any other kind. */
  function Color(kind: string): (c: Option<string>)
    ensures c.Some? <==> kind in Kinds
  {
    if kind == Success then Some(SuccessColor)
    else if kind == Error then Some(ErrorColor)
    else if kind == Warning then Some(WarningColor)
    else if kind == Info then Some(InfoColor)
    else None
  }

  /** The second gradient stop at line 184: the deep violet exactly for success. */
  function Accent(kind: string): (c: string)
    ensures c == SuccessAccent <==> kind == Success
  {
    if kind == Success then SuccessAccent else OtherAccent
  }

  /** The progress-bar background at line 184, for a kind with a real colour. */
  function Progress(kind: string): (g: Option<string>)
    ensures g.Some? <==> kind in Kinds
    ensures kind == Success ==> g == Some("linear-gradient(90deg, #4cc9f0, #3a0ca3)")
    ensures kind == Error ==> g == Some("linear-gradient(90deg, #ef233c, #f72585)")
    ensures kind == Warning ==> g == Some("linear-gradient(90deg, #f8961e, #f72585)")
    ensures kind == Info ==> g == Some("linear-gradient(90deg, #4361ee, #f72585)")
  {
    match Color(kind)
    case Some(c) =>
      var g := "linear-gradient(90deg, " + c + ", " + Accent(kind) + ")";
      assert kind == Success ==> g == "linear-gradient(90deg, #4cc9f0, #3a0ca3)";
      assert kind == Error ==> g == "linear-gradient(90deg, #ef233c, #f72585)";
      assert kind == Warning ==> g == "linear-gradient(90deg, #f8961e, #f72585)";
      assert kind == Info ==> g == "linear-gradient(90deg, #4361ee, #f72585)";
      Some(g)
    case None => None
  }

  /** Distinct kinds of the colour table get distinct icons. */
  lemma IconDistinguishesKinds(a: string, b: string)
    requires a in Kinds && b in Kinds && Icon(a) == Icon(b)
    ensures a == b
  {
  }

  /** No two kinds share a colour. */
  lemma ColorDistinguishesKinds(a: string, b: string)
    requires Color(a).Some? && Color(a) == Color(b)
    ensures a == b
  {
  }
}
