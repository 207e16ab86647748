/** The section switcher cambiarSeccion (script.js:86-96): every section is
    hidden, the target section is shown, and the first menu button pointing at
    it is the only one marked active. */
module Navigation {

  /** The position of the first entry equal to `id`: the button
      `querySelector('[data-seccion="id"]')` finds, when the menu buttons are
      the elements carrying that attribute. */
  function FirstIndexOf(targets: seq<string>, id: string): (r: nat)
    requires id in targets
    ensures r < |targets| && targets[r] == id
    ensures forall k :: 0 <= k < r ==> targets[k] != id
  {
    if targets[0] == id then 0 else 1 + FirstIndexOf(targets[1..], id)
  }

  /** The id fits between the double quotes of the selector
      `[data-seccion="id"]` without changing its meaning. It has no closing
      quote, no escape character, no CSS newline (line feed, carriage return,
      form feed), and no NUL, which CSS input preprocessing replaces. */
  predicate SelectorSafe(id: string)
  {
    forall k :: 0 <= k < |id| ==>
      id[k] != '"' && id[k] != '\\' && id[k] != '\n' && id[k] != '\r'
      && id[k] != '\U{000C}' && id[k] != '\0'
  }

  class Navigator {
    /** Ids of the `.seccion` elements. */
    const sections: set<string>
    /** `data-seccion` of each `.menu-btn`, in document order. */
    const targets: seq<string>
    /** The sections carrying the class "oculto". */
    var hidden: set<string>
    /** Positions of the menu buttons carrying the class "active". */
    var active: set<nat>

    /** The sections on screen. */
    function Visible(): set<string>
      reads this
    {
      sections - hidden
    }

    /** The page as its markup leaves it. */
    constructor (sections: set<string>, targets: seq<string>, hidden: set<string>, active: set<nat>)
      ensures this.sections == sections && this.targets == targets
      ensures this.hidden == hidden && this.active == active
    {
      this.sections := sections;
      this.targets := targets;
      this.hidden := hidden;
      this.active := active;
    }

    /** cambiarSeccion: afterwards exactly the target section is visible (none
        when no section has that id) and exactly the first button pointing at it
        is active (none when no button does). The id is pasted unescaped into
        the button selector, so it must be one that selector reads literally. */
    method Switch(id: string)
      requires SelectorSafe(id)
      modifies this
      ensures hidden == sections - {id}
      ensures Visible() == (if id in sections then {id} else {})
      ensures active == (if id in targets then {FirstIndexOf(targets, id)} else {})
      ensures forall k :: k in active ==> k < |targets| && targets[k] == id
    {
      hidden := sections;
      if id in sections {
        hidden := hidden - {id};
      }
      active := {};
      if id in targets {
        active := {FirstIndexOf(targets, id)};
      }
    }
  }
}
