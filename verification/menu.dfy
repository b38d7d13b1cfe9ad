/** The choice handling of `menu_principal` (times_table.py, lines 229-245): "0" quits, the
    choices 1 to 10 select a level and a semester, anything else is rejected. The conversion
    `int(choix)` is a parameter: `None` stands for the ValueError it raises. */
module Menu {
  import opened Common

  /** What one answer to the menu leads to. */
  datatype Action =
    | Quit
    | Run(level: int, semester: string)
    | OutOfRange
    | NotANumber

  /** A level and semester the menu offers: Licence 1 to Master 2, semester "s1" or "s2". */
  predicate Offered(level: int, semester: string) {
    1 <= level <= 5 && (semester == "s1" || semester == "s2")
  }

  /** A choice in 1..10 names a level and a semester: choices 2k-1 and 2k are level k, the
      odd one its first semester and the even one its second. */
  function DecodeChoice(choice: int): (r: Option<(int, string)>)
    ensures r.Some? <==> 1 <= choice <= 10
    ensures r.Some? ==> Offered(r.value.0, r.value.1)
    ensures r.Some? ==> (r.value.1 == "s1" <==> choice % 2 == 1)
  {
    if 1 <= choice <= 10 then
      Some(((choice + 1) / 2, if choice % 2 == 1 then "s1" else "s2"))
    else None
  }

  /** The menu line that offers a level and semester. */
  function ChoiceFor(level: int, semester: string): (choice: int)
    requires Offered(level, semester)
  {
    if semester == "s1" then 2 * level - 1 else 2 * level
  }

  /** Every offered level and semester has a choice that decodes to it. */
  lemma DecodeChoiceFor(level: int, semester: string)
    requires Offered(level, semester)
    ensures 1 <= ChoiceFor(level, semester) <= 10
    ensures DecodeChoice(ChoiceFor(level, semester)) == Some((level, semester))
  {
  }

  /** Distinct choices decode to distinct selections: decoding is a bijection from 1..10
      onto the offered levels and semesters. */
  lemma ChoiceForDecode(choice: int)
    requires 1 <= choice <= 10
    ensures var sel := DecodeChoice(choice).value; ChoiceFor(sel.0, sel.1) == choice
  {
  }

  /** One answer to the menu: the raw text "0" quits before any conversion; otherwise the
      converted number selects a run or is rejected. */
  function MenuStep(raw: string, parsed: Option<int>): (a: Action)
    ensures raw == "0" <==> a.Quit?
    ensures a.NotANumber? <==> raw != "0" && parsed.None?
    ensures a.Run? <==> raw != "0" && parsed.Some? && 1 <= parsed.value <= 10
    ensures a.Run? ==>
      Offered(a.level, a.semester) && ChoiceFor(a.level, a.semester) == parsed.value
  {
    if raw == "0" then Quit
    else
      match parsed
      case None => NotANumber
      case Some(choice) =>
        match DecodeChoice(choice)
        case Some(sel) =>
          ChoiceForDecode(choice);
          Run(sel.0, sel.1)
        case None => OutOfRange
  }
}
