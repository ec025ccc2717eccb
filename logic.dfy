/**
 * Three-valued logic of WHERE clauses: Python's `True`, `False` and `None`
 * (unknown), with reference definitions of the connectives.
 */
module ThreeValued {

  datatype TV = True | False | Unknown

  /** `not` on a definite value; `None` stays `None`. */
  function Not3(v: TV): (r: TV)
    ensures v == Unknown <==> r == Unknown
    ensures v == True <==> r == False
  {
    match v
    case True => False
    case False => True
    case Unknown => Unknown
  }

  /** OR over operands: True if any operand is True, otherwise Unknown if any
      is Unknown, otherwise False. */
  function Or3(vs: seq<TV>): (r: TV)
    ensures r == True <==> (exists i :: 0 <= i < |vs| && vs[i] == True)
    ensures r == Unknown <==>
      (forall i :: 0 <= i < |vs| ==> vs[i] != True) && (exists i :: 0 <= i < |vs| && vs[i] == Unknown)
    ensures r == False <==> (forall i :: 0 <= i < |vs| ==> vs[i] == False)
  {
    if vs == [] then False
    else
      var rest := Or3(vs[1..]);
      assert forall i :: 1 <= i < |vs| ==> vs[i] == vs[1..][i - 1];
      if vs[0] == True || rest == True then True
      else if vs[0] == Unknown || rest == Unknown then Unknown
      else False
  }

  /** AND over operands: False if any operand is False, otherwise Unknown if
      any is Unknown, otherwise True. */
  function And3(vs: seq<TV>): (r: TV)
    ensures r == False <==> (exists i :: 0 <= i < |vs| && vs[i] == False)
    ensures r == Unknown <==>
      (forall i :: 0 <= i < |vs| ==> vs[i] != False) && (exists i :: 0 <= i < |vs| && vs[i] == Unknown)
    ensures r == True <==> (forall i :: 0 <= i < |vs| ==> vs[i] == True)
  {
    if vs == [] then True
    else
      var rest := And3(vs[1..]);
      assert forall i :: 1 <= i < |vs| ==> vs[i] == vs[1..][i - 1];
      if vs[0] == False || rest == False then False
      else if vs[0] == Unknown || rest == Unknown then Unknown
      else True
  }

  /** De Morgan's law holds in this logic. */
  lemma {:induction false} DeMorgan(vs: seq<TV>)
    ensures Not3(Or3(vs)) == And3(seq(|vs|, i requires 0 <= i < |vs| => Not3(vs[i])))
  {
    var ns := seq(|vs|, i requires 0 <= i < |vs| => Not3(vs[i]));
    assert forall i :: 0 <= i < |vs| ==> ns[i] == Not3(vs[i]);
  }

  /** Examples: NOT, AND and OR applied to Unknown. */
  lemma UnknownLaws()
    ensures Not3(Unknown) == Unknown
    ensures And3([Unknown, True]) == Unknown
    ensures Or3([Unknown, True]) == True
    ensures Or3([Unknown, False]) == Unknown
  {
    assert [Unknown, True][1] == True;
    assert [Unknown, True][0] == Unknown;
    assert [Unknown, False][0] == Unknown;
  }
}
