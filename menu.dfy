/**
 * The main menu: a cursor over three fixed entries that wraps around at both
 * ends. Enter is dispatched by the controller (module AppController).
 */
module MenuState {

  /** `menu_options`. */
  const MenuOptions: seq<string> := ["continue", "new game", "exit"]

  /** The entry below s, wrapping from the last entry to the first (`(s + 1) % 3`). */
  function Next(s: int): (r: int)
    ensures 0 <= r < |MenuOptions|
    ensures 0 <= s < |MenuOptions| - 1 ==> r == s + 1
    ensures s == |MenuOptions| - 1 ==> r == 0
  {
    (s + 1) % |MenuOptions|
  }

  /**
   * The entry above s, wrapping from the first entry to the last. Python's
   * `(s - 1) % 3` is never negative for the positive modulus, as is Dafny's.
   */
  function Prev(s: int): (r: int)
    ensures 0 <= r < |MenuOptions|
    ensures 0 < s < |MenuOptions| ==> r == s - 1
    ensures s == 0 ==> r == |MenuOptions| - 1
  {
    (s - 1) % |MenuOptions|
  }

  /** Down then up, or up then down, puts the cursor back. */
  lemma NextPrevInverse(s: int)
    requires 0 <= s < |MenuOptions|
    ensures Prev(Next(s)) == s && Next(Prev(s)) == s
  {
  }

  /** Three presses of the same arrow go all the way round. */
  lemma CycleThree(s: int)
    requires 0 <= s < |MenuOptions|
    ensures Next(Next(Next(s))) == s && Prev(Prev(Prev(s))) == s
  {
  }

  class Menu {
    var selected: int

    predicate Valid()
      reads this
    {
      0 <= selected < |MenuOptions|
    }

    constructor ()
      ensures selected == 0 && Valid()
    {
      selected := 0;
    }

    /** The entry under the cursor, `menu_options[self.selected]`. */
    function Choice(): (c: string)
      requires Valid()
      reads this
      ensures c in MenuOptions
      ensures c == "exit" <==> selected == 2
      ensures c == "new game" <==> selected == 1
      ensures c == "continue" <==> selected == 0
    {
      MenuOptions[selected]
    }

    /** `act_on_down`. */
    method ActOnDown()
      modifies this
      ensures selected == Next(old(selected)) && Valid()
    {
      selected := (selected + 1) % |MenuOptions|;
    }

    /** `act_on_up`. */
    method ActOnUp()
      modifies this
      ensures selected == Prev(old(selected)) && Valid()
    {
      selected := (selected - 1) % |MenuOptions|;
    }

    /** `act_on_left`: nothing happens. */
    method ActOnLeft()
      ensures unchanged(this)
    {
    }

    /** `act_on_right`: nothing happens. */
    method ActOnRight()
      ensures unchanged(this)
    {
    }

    /** `act_on_esc`: nothing happens. */
    method ActOnEsc()
      ensures unchanged(this)
    {
    }
  }
}
