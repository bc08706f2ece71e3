/** The `Position` enum: three constants, their human labels and the
    case-insensitive label lookup used when a DTO is turned into an entity. */
module Positions {
  import opened Wrappers

  datatype Position = DirectorateDirector | DepartmentHead | Employee

  /** `Position.values()`: the constants in declaration order, which runs from the
      highest rank to the lowest. */
  function Values(): (r: seq<Position>)
    ensures |r| == 3
    ensures forall i :: 0 <= i < |r| ==> Rank(r[i]) == |r| - 1 - i
  {
    [DirectorateDirector, DepartmentHead, Employee]
  }

  /** `values()` lists every constant exactly once. */
  lemma ValuesEnumerate(p: Position)
    ensures p in Values()
    ensures forall i, j :: 0 <= i < j < |Values()| ==> Values()[i] != Values()[j]
  {
    match p
    case DirectorateDirector => assert Values()[0] == p;
    case DepartmentHead => assert Values()[1] == p;
    case Employee => assert Values()[2] == p;
  }

  /** `getLabel`: the human-readable label each constant is declared with. Labels are
      non-empty printable ASCII, which is what makes `Fold` exact on them. */
  function Label(p: Position): (r: string)
    ensures |r| > 0 && forall i :: 0 <= i < |r| ==> ' ' <= r[i] <= '~'
  {
    match p
    case DirectorateDirector => "Director of the Directorate"
    case DepartmentHead => "Head of Department"
    case Employee => "Employee"
  }

  /** `name()`: the identifier of the constant, upper-case letters and underscores. */
  function Name(p: Position): (r: string)
    ensures |r| > 0 && forall i :: 0 <= i < |r| ==> 'A' <= r[i] <= 'Z' || r[i] == '_'
  {
    match p
    case DirectorateDirector => "DIRECTORATE_DIRECTOR"
    case DepartmentHead => "DEPARTMENT_HEAD"
    case Employee => "EMPLOYEE"
  }

  /** The privilege rank of a position: EMPLOYEE < DEPARTMENT_HEAD < DIRECTORATE_DIRECTOR.
      The code has no such table; it is the reference the role lists are checked against. */
  function Rank(p: Position): nat {
    match p
    case Employee => 0
    case DepartmentHead => 1
    case DirectorateDirector => 2
  }

  // ---------------------------------------------------------------------------
  // String.equalsIgnoreCase

  /** Case folding of one character as `equalsIgnoreCase` sees it when the other
      character is ASCII: ASCII letters fold to lower case, and the four non-ASCII
      characters whose Java upper or lower case is an ASCII letter (dotted capital I,
      dotless small i, long s, Kelvin sign) fold to that letter. Comparisons between
      two non-ASCII letters are not modelled. */
  function Fold(c: char): char {
    if 'A' <= c <= 'Z' then (c as int + 32) as char
    else if c == '\U{0130}' || c == '\U{0131}' then 'i'
    else if c == '\U{017F}' then 's'
    else if c == '\U{212A}' then 'k'
    else c
  }

  /** `a.equalsIgnoreCase(b)` for non-null strings: same length, and every pair of
      characters at the same index is equal up to case. */
  predicate EqualsIgnoreCase(a: string, b: string) {
    |a| == |b| && forall i :: 0 <= i < |a| ==> Fold(a[i]) == Fold(b[i])
  }

  /** `position.getLabel().equalsIgnoreCase(text)`; `equalsIgnoreCase(null)` is false. */
  predicate Matches(p: Position, text: Option<string>) {
    text.Some? && EqualsIgnoreCase(Label(p), text.value)
  }

  /** The loop of `fromLabel`: the first constant of `vs` whose label matches. */
  function FindLabel(vs: seq<Position>, text: Option<string>): Option<Position> {
    if vs == [] then None
    else if Matches(vs[0], text) then Some(vs[0])
    else FindLabel(vs[1..], text)
  }

  lemma {:induction false} FindLabelCorrect(vs: seq<Position>, text: Option<string>)
    ensures FindLabel(vs, text).Some? ==>
              FindLabel(vs, text).value in vs && Matches(FindLabel(vs, text).value, text)
    ensures FindLabel(vs, text).None? <==> forall p :: p in vs ==> !Matches(p, text)
  {
    if vs != [] {
      FindLabelCorrect(vs[1..], text);
      assert forall p :: p in vs ==> p == vs[0] || p in vs[1..];
    }
  }

  /** `Position.fromLabel`: the position whose label equals `text` ignoring case;
      a text that matches no label, null included, throws. */
  function FromLabel(text: Option<string>): (r: Result<Position>)
    ensures r.Ok? <==> exists p :: Matches(p, text)
    ensures r.Ok? ==> Matches(r.value, text)
    ensures r.Err? ==> r.error == UnknownPosition
  {
    FindLabelCorrect(Values(), text);
    match FindLabel(Values(), text)
    case Some(p) => Ok(p)
    case None => Err(UnknownPosition)
  }

  // ---------------------------------------------------------------------------
  // Properties of the labels and of the lookup

  /** Matching ignoring case is an equivalence relation. */
  lemma EqualsIgnoreCaseEquivalence(a: string, b: string, c: string)
    ensures EqualsIgnoreCase(a, a)
    ensures EqualsIgnoreCase(a, b) <==> EqualsIgnoreCase(b, a)
    ensures EqualsIgnoreCase(a, b) && EqualsIgnoreCase(b, c) ==> EqualsIgnoreCase(a, c)
  {
  }

  /** On ASCII, `Fold` is lower-casing; switching the case of a character never changes
      its fold, and folding twice changes nothing more. */
  lemma FoldIgnoresCase(c: char)
    ensures c < '\U{80}' ==> Fold(c) == ToLower(c)
    ensures Fold(ToUpper(c)) == Fold(c) && Fold(ToLower(c)) == Fold(c)
    ensures Fold(Fold(c)) == Fold(c)
  {
  }

  /** The three labels are pairwise distinct even ignoring case. */
  lemma LabelsDistinctIgnoringCase(p: Position, q: Position)
    ensures EqualsIgnoreCase(Label(p), Label(q)) <==> p == q
  {
    assert |Label(DirectorateDirector)| == 27;
    assert |Label(DepartmentHead)| == 18;
    assert |Label(Employee)| == 8;
  }

  /** At most one position matches any input. */
  lemma AtMostOneMatch(p: Position, q: Position, text: Option<string>)
    requires Matches(p, text) && Matches(q, text)
    ensures p == q
  {
    LabelsDistinctIgnoringCase(p, q);
    EqualsIgnoreCaseEquivalence(Label(p), text.value, Label(q));
  }

  /** `fromLabel` returns exactly the position whose label matches. */
  lemma FromLabelExact(p: Position, text: Option<string>)
    ensures FromLabel(text) == Ok(p) <==> Matches(p, text)
  {
    if Matches(p, text) {
      var r := FromLabel(text);
      AtMostOneMatch(p, r.value, text);
    }
  }

  /** Round trip: every label maps back to its own position. */
  lemma LabelRoundTrip(p: Position)
    ensures FromLabel(Some(Label(p))) == Ok(p)
  {
    FromLabelExact(p, Some(Label(p)));
  }

  /** `fromLabel` of a string that matches no label ignoring case, or of null, throws. */
  lemma FromLabelRejects(text: Option<string>)
    requires text.None? || forall p :: !EqualsIgnoreCase(Label(p), text.value)
    ensures FromLabel(text) == Err(UnknownPosition)
  {
  }

  function ToUpper(c: char): char {
    if 'a' <= c <= 'z' then (c as int - 32) as char else c
  }

  function ToLower(c: char): char {
    if 'A' <= c <= 'Z' then (c as int + 32) as char else c
  }

  /** `s` is `t` with any of its characters switched to upper or to lower case. */
  predicate CaseVariant(s: string, t: string) {
    |s| == |t| &&
    forall i :: 0 <= i < |s| ==> s[i] == t[i] || s[i] == ToUpper(t[i]) || s[i] == ToLower(t[i])
  }

  /** Any upper/lower-casing of a label still yields its position. */
  lemma FromLabelIgnoresCase(p: Position, s: string)
    requires CaseVariant(s, Label(p))
    ensures FromLabel(Some(s)) == Ok(p)
  {
    var t := Label(p);
    forall i | 0 <= i < |s|
      ensures Fold(t[i]) == Fold(s[i])
    {
      assert s[i] == t[i] || s[i] == ToUpper(t[i]) || s[i] == ToLower(t[i]);
    }
    FromLabelExact(p, Some(s));
  }

  /** The whole string in upper case, as a client might send it. */
  function UpperCase(s: string): (r: string)
    ensures CaseVariant(r, s)
  {
    seq(|s|, i requires 0 <= i < |s| => ToUpper(s[i]))
  }

  lemma UpperCaseLabel(p: Position)
    ensures FromLabel(Some(UpperCase(Label(p)))) == Ok(p)
  {
    FromLabelIgnoresCase(p, UpperCase(Label(p)));
  }
}
