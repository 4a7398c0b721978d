/**
 The navigation fade: hovering a navigation link sets the opacity of every
 other link and of the logo to the value the handler was bound to (0.5 on
 mouse-over, 1 on mouse-out); the hovered link keeps its own opacity.
 */
module MenuFade {
  import opened Wrappers

  /** The opacity the handler is bound to on mouse-over. */
  const Faded: real := 0.5
  /** The opacity the handler is bound to on mouse-out. */
  const Opaque: real := 1.0

  /**
   The link opacities after hovering link `link` with the bound value `value`.
   A menu already at that value is left as it is.
   */
  function Dimmed(links: seq<real>, link: nat, value: real): (r: seq<real>)
    ensures |r| == |links|
    ensures forall i :: 0 <= i < |links| && i != link ==> r[i] == value
    ensures link < |links| ==> r[link] == links[link]
    ensures AllAt(links, value) ==> r == links
  {
    seq(|links|, i requires 0 <= i < |links| => if i == link then links[i] else value)
  }

  /** Every opacity is `value`. */
  predicate AllAt(links: seq<real>, value: real)
  {
    forall i :: 0 <= i < |links| ==> links[i] == value
  }

  /** A second hover on the same link overrides the first one entirely. */
  lemma LastHoverWins(links: seq<real>, link: nat, v: real, w: real)
    ensures Dimmed(Dimmed(links, link, v), link, w) == Dimmed(links, link, w)
  {
  }

  /** Leaving a link with the mouse-out value restores a fully opaque menu. */
  lemma MouseOutRestores(links: seq<real>, link: nat)
    requires AllAt(links, Opaque)
    ensures AllAt(Dimmed(Dimmed(links, link, Faded), link, Opaque), Opaque)
  {
  }

  /**
   Moving the mouse from link `a` to link `b` (mouse-over and mouse-out on `a`,
   then mouse-over on `b`) in a fully opaque menu leaves `b` fully opaque and
   every other link faded, `a` included.
   */
  lemma MoveToAnotherLink(links: seq<real>, a: nat, b: nat)
    requires AllAt(links, Opaque) && b < |links|
    ensures Dimmed(Dimmed(Dimmed(links, a, Faded), a, Opaque), b, Faded)[b] == Opaque
    ensures forall i :: 0 <= i < |links| && i != b ==> Dimmed(Dimmed(Dimmed(links, a, Faded), a, Opaque), b, Faded)[i] == Faded
  {
  }

  /** The navigation bar: the opacity of each link and of the logo. */
  class Nav {
    const linkOpacity: array<real>
    var logoOpacity: real

    constructor (links: array<real>, logo: real)
      ensures linkOpacity == links && logoOpacity == logo
    {
      linkOpacity := links;
      logoOpacity := logo;
    }

    /**
     The hover handler bound to `value`. `target` is the hovered link, or None
     when the event target is not a navigation link.
     */
    method HandleHover(target: Option<nat>, value: real)
      requires target.Some? ==> target.value < linkOpacity.Length
      modifies this, linkOpacity
      ensures target.None? ==> logoOpacity == old(logoOpacity) && linkOpacity[..] == old(linkOpacity[..])
      ensures target.Some? ==> logoOpacity == value
      ensures target.Some? ==> linkOpacity[..] == Dimmed(old(linkOpacity[..]), target.value, value)
    {
      if target.None? {
        return;
      }
      var link := target.value;
      var i := 0;
      while i < linkOpacity.Length
        invariant 0 <= i <= linkOpacity.Length
        invariant forall j :: 0 <= j < i && j != link ==> linkOpacity[j] == value
        invariant forall j :: 0 <= j < linkOpacity.Length && (i <= j || j == link) ==> linkOpacity[j] == old(linkOpacity[j])
      {
        if i != link {
          linkOpacity[i] := value;
        }
        i := i + 1;
      }
      logoOpacity := value;
    }
  }
}
