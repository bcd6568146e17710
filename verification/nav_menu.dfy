/** The navigation menu of the page (static/adamus.js, lines 214-235): a hamburger button that
    opens and closes the link list and swaps its glyph, and links that close the list. */
module NavMenu {
  import opened TextOps

  const Hamburger: string := "☰"
  const Cross: string := "✕"

  lemma GlyphsAreTrimmed()
    ensures Trim(JavaScript, Hamburger) == Hamburger && Trim(JavaScript, Cross) == Cross
    ensures Hamburger != Cross
  {
    assert [] + Hamburger + [] == Hamburger && [] + Cross + [] == Cross;
    TrimUnique(JavaScript, [], Hamburger, []);
    TrimUnique(JavaScript, [], Cross, []);
  }

  /** The glyph the hamburger shows after a click: the cross when its trimmed text was the
      hamburger, the hamburger otherwise. */
  function ToggledGlyph(glyph: string): (r: string)
    ensures r == Hamburger || r == Cross
    ensures r == Cross <==> Trim(JavaScript, glyph) == Hamburger
  {
    GlyphsAreTrimmed();
    if Trim(JavaScript, glyph) == Hamburger then Cross else Hamburger
  }

  /** Two clicks give the glyph back exactly when it was one of the two glyphs. */
  lemma ToggleTwice(glyph: string)
    ensures ToggledGlyph(ToggledGlyph(glyph)) == glyph <==> glyph == Hamburger || glyph == Cross
  {
    GlyphsAreTrimmed();
  }

  /** Whitespace around the glyph, as the markup may leave it, does not change what a click
      does. */
  lemma ToggleIgnoresPadding(pre: string, glyph: string, post: string)
    requires AllSpace(JavaScript, pre) && AllSpace(JavaScript, post)
    requires glyph == Hamburger || glyph == Cross
    ensures ToggledGlyph(pre + glyph + post) == ToggledGlyph(glyph)
  {
    GlyphsAreTrimmed();
    TrimUnique(JavaScript, pre, glyph, post);
  }

  class Menu {
    /** Whether the link list carries the `open` class. */
    var open: bool
    /** The text of the hamburger button. */
    var glyph: string

    /** The glyph, once trimmed, tells whether the list is open. */
    predicate Consistent()
      reads this
    {
      Trim(JavaScript, glyph) == (if open then Cross else Hamburger)
    }

    constructor (initiallyOpen: bool, initialGlyph: string)
      ensures open == initiallyOpen && glyph == initialGlyph
    {
      open := initiallyOpen;
      glyph := initialGlyph;
    }

    /** A click on the hamburger toggles the `open` class and swaps the glyph. */
    method ClickHamburger()
      modifies this
      ensures open == !old(open)
      ensures glyph == ToggledGlyph(old(glyph))
      ensures old(Consistent()) ==> Consistent()
    {
      open := !open;
      if Trim(JavaScript, glyph) == Hamburger {
        glyph := Cross;
      } else {
        glyph := Hamburger;
      }
      GlyphsAreTrimmed();
    }

    /** A click on any link closes the list and shows the hamburger, whatever the state was. */
    method ClickNavLink()
      modifies this
      ensures !open && glyph == Hamburger
      ensures Consistent()
    {
      open := false;
      glyph := Hamburger;
      GlyphsAreTrimmed();
    }
  }
}
