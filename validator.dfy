/** The custom validation of the robot-mission language: a naming convention
    on Person nodes, reported through the validation acceptor. */
module Validator {

  import opened Wrappers

  /** A Person node; `name` is `None` when the attribute is absent. */
  datatype Person = Person(name: Option<string>)

  datatype Severity = Error | Warning

  /** One call of the validation acceptor: severity, message, and the node
      and property the message is attached to. */
  datatype Diagnostic = Diagnostic(severity: Severity, message: string, node: Person, property: string)

  const CapitalMessage := "Person name should start with a capital."

  /** Upper-casing of one character, for the ASCII range: `a`..`z` map to
      `A`..`Z`, every other character maps to itself. */
  function ToUpper(c: char): (u: char)
    ensures 'a' <= c <= 'z' ==> 'A' <= u <= 'Z' && u as int == c as int - 32
    ensures !('a' <= c <= 'z') ==> u == c
  {
    if 'a' <= c <= 'z' then (c as int - 32) as char else c
  }

  /** The name is present and not empty, and its first character is changed
      by upper-casing. */
  predicate StartsWithChangedChar(p: Person) {
    p.name.Some? && |p.name.value| > 0 && ToUpper(p.name.value[0]) != p.name.value[0]
  }

  /** The diagnostics `checkPersonStartsWithCapital` hands to the acceptor
      for `p`, in order. */
  function CheckPersonStartsWithCapital(p: Person): (ds: seq<Diagnostic>)
    ensures |ds| <= 1
    ensures |ds| == 1 <==> StartsWithChangedChar(p)
    ensures forall d :: d in ds ==> d == Diagnostic(Warning, CapitalMessage, p, "name")
  {
    match p.name
    case None => []
    case Some(n) =>
      if n == [] then []
      else
        var first := n[..1];
        if [ToUpper(first[0])] != first then [Diagnostic(Warning, CapitalMessage, p, "name")] else []
  }

  // ---------------------------------------------------------------------

  /** Upper-casing changes a character exactly when it is a lower-case ASCII
      letter, and its result is never changed again. */
  lemma ToUpperChangesOnlyLowercase(c: char)
    ensures ToUpper(c) != c <==> 'a' <= c <= 'z'
    ensures ToUpper(ToUpper(c)) == ToUpper(c)
  {
  }

  /** The check warns exactly when the name starts with a lower-case ASCII
      letter. */
  lemma WarnsIffLowercaseStart(p: Person)
    ensures CheckPersonStartsWithCapital(p) != [] <==>
      p.name.Some? && |p.name.value| > 0 && 'a' <= p.name.value[0] <= 'z'
  {
  }

  /** An absent or empty name is never reported. */
  lemma NoNameNoDiagnostic(p: Person)
    requires p.name == None || p.name == Some("")
    ensures CheckPersonStartsWithCapital(p) == []
  {
  }

  /** A name whose first character upper-casing leaves alone is not
      reported. */
  lemma UnchangedFirstCharNoDiagnostic(p: Person)
    requires p.name.Some? && |p.name.value| > 0 && ToUpper(p.name.value[0]) == p.name.value[0]
    ensures CheckPersonStartsWithCapital(p) == []
  {
  }

  /** In particular a name starting with an upper-case letter or a digit is
      not reported. */
  lemma CapitalOrDigitStartNoDiagnostic(p: Person)
    requires p.name.Some? && |p.name.value| > 0
    requires 'A' <= p.name.value[0] <= 'Z' || '0' <= p.name.value[0] <= '9'
    ensures CheckPersonStartsWithCapital(p) == []
  {
  }

  /** A name starting with a lower-case letter gets exactly one warning with
      the fixed message, attached to the person's `name` property. */
  lemma LowercaseStartWarnsOnce(p: Person)
    requires p.name.Some? && |p.name.value| > 0 && 'a' <= p.name.value[0] <= 'z'
    ensures CheckPersonStartsWithCapital(p) == [Diagnostic(Warning, "Person name should start with a capital.", p, "name")]
  {
  }

  /** Only the first character decides: two persons whose names start with
      the same character get the same outcome, whatever follows. */
  lemma OnlyFirstCharacterMatters(p: Person, q: Person)
    requires p.name.Some? && q.name.Some? && |p.name.value| > 0 && |q.name.value| > 0
    requires p.name.value[0] == q.name.value[0]
    ensures |CheckPersonStartsWithCapital(p)| == |CheckPersonStartsWithCapital(q)|
    ensures forall d :: d in CheckPersonStartsWithCapital(p) ==>
      Diagnostic(d.severity, d.message, q, d.property) in CheckPersonStartsWithCapital(q)
  {
  }
}
