/**
 The modal window: the modal and the overlay behind it, each shown or
 hidden through a `hidden` flag. It is opened by the `.btn--show-modal`
 buttons and closed by the close button, the overlay or the Escape key.
 */
module ModalWindow {

  /** The hidden flags of the modal and the overlay. */
  datatype Visibility = Visibility(modalHidden: bool, overlayHidden: bool)

  /**
   Both elements shown, whatever they were before. The result keeps the two
   in step, and an Escape press right after it closes the modal again.
   */
  function Opened(v: Visibility): (r: Visibility)
    ensures !r.modalHidden && !r.overlayHidden
    ensures Together(r)
    ensures OnKeyDown(r, "Escape") == Closed(v)
  {
    Visibility(false, false)
  }

  /**
   Both elements hidden, whatever they were before. The result keeps the two
   in step, and no key press changes it.
   */
  function Closed(v: Visibility): (r: Visibility)
    ensures r.modalHidden && r.overlayHidden
    ensures Together(r)
    ensures forall key :: OnKeyDown(r, key) == r
  {
    Visibility(true, true)
  }

  /**
   A key press anywhere on the page: Escape closes the modal, but only while it
   is shown. The guard looks at the modal's flag only, not at the overlay's.
   */
  function OnKeyDown(v: Visibility, key: string): (r: Visibility)
    ensures key != "Escape" ==> r == v
    ensures v.modalHidden ==> r == v
    ensures key == "Escape" && !v.modalHidden ==> r.modalHidden && r.overlayHidden
    // a key press keeps the modal and the overlay in step, and never shows anything
    ensures Together(v) ==> Together(r)
    ensures (v.modalHidden ==> r.modalHidden) && (v.overlayHidden ==> r.overlayHidden)
  {
    if key == "Escape" && !v.modalHidden then Visibility(true, true) else v
  }

  /** The modal and the overlay are shown and hidden together. */
  predicate Together(v: Visibility)
  {
    v.modalHidden == v.overlayHidden
  }

  /** Closing a second time changes nothing more; so does opening a second time. */
  lemma CloseAndOpenIdempotent(v: Visibility)
    ensures Closed(Closed(v)) == Closed(v)
    ensures Opened(Opened(v)) == Opened(v)
  {
  }

  /** The two elements on the page. */
  class Modal {
    var modalHidden: bool
    var overlayHidden: bool

    /** The two hidden flags as one value. */
    function State(): Visibility
      reads this
    {
      Visibility(modalHidden, overlayHidden)
    }

    /** The state on page load: both elements carry the `hidden` class in the page markup. */
    constructor ()
      ensures modalHidden && overlayHidden
      ensures Together(State())
    {
      modalHidden, overlayHidden := true, true;
    }

    /** A click on one of the `.btn--show-modal` buttons. */
    method Open()
      modifies this
      ensures State() == Opened(old(State()))
    {
      modalHidden := false;
      overlayHidden := false;
    }

    /** A click on the close button or on the overlay. */
    method Close()
      modifies this
      ensures State() == Closed(old(State()))
    {
      modalHidden := true;
      overlayHidden := true;
    }

    /** The page-wide key handler. */
    method KeyDown(key: string)
      modifies this
      ensures State() == OnKeyDown(old(State()), key)
    {
      if key == "Escape" && !modalHidden {
        Close();
      }
    }
  }
}
