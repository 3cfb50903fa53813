/** The capture page's click handlers for Capture, Re-Capture and Remove.
    Each handler sets the `style.display` of the video, the canvas and the
    four buttons, and Capture and Remove also draw on the canvas or clear it.
    The page is either Live (camera feed and the Capture button) or
    Captured (frozen frame with Re-Capture, Save and Remove). */
module CaptureUi {
  import opened Wire

  /** What the 400x300 canvas holds: nothing (never drawn on, or cleared
      by `clearRect`), or a frame copied from the video by `drawImage`. */
  datatype Canvas = Cleared | Frame(shot: nat)

  datatype Mode = Live | Captured

  class CapturePage {
    var videoShown: bool
    var canvasShown: bool
    var captureShown: bool
    var recaptureShown: bool
    var saveShown: bool
    var removeShown: bool
    var canvas: Canvas

    /** The controls of exactly one mode are on screen: Capture with the
        video, or Re-Capture, Save and Remove with the canvas. */
    predicate Valid()
      reads this
      // exactly one of {Capture} and {Re-Capture, Save, Remove} is shown
      ensures Valid() ==>
        (captureShown && !recaptureShown && !saveShown && !removeShown) ||
        (!captureShown && recaptureShown && saveShown && removeShown)
    {
      recaptureShown == saveShown == removeShown &&
      captureShown != recaptureShown &&
      videoShown == captureShown &&
      (!captureShown ==> canvasShown)
    }

    function Mode(): Mode
      reads this
    {
      if captureShown then Live else Captured
    }

    /** The page as loaded: the style sheet hides the canvas and the
        Re-Capture, Save and Remove buttons. */
    constructor ()
      ensures Valid() && Mode() == Live
      ensures videoShown && !canvasShown && captureShown
      ensures !recaptureShown && !saveShown && !removeShown
      ensures canvas == Cleared
    {
      videoShown, canvasShown, captureShown := true, false, true;
      recaptureShown, saveShown, removeShown := false, false, false;
      canvas := Cleared;
    }

    /** Capture: draw the current video frame onto the canvas (a video with
        no frame yet, `liveFrame == None`, draws nothing), show the canvas
        and the Captured controls, hide the video and Capture. */
    method Capture(liveFrame: Option<nat>)
      modifies this
      ensures Valid() && Mode() == Captured
      ensures canvasShown && !videoShown && !captureShown
      ensures recaptureShown && saveShown && removeShown
      ensures canvas == if liveFrame.Some? then Frame(liveFrame.value) else old(canvas)
    {
      if liveFrame.Some? {
        canvas := Frame(liveFrame.value);
      }
      canvasShown := true;
      videoShown := false;
      captureShown := false;
      recaptureShown := true;
      saveShown := true;
      removeShown := true;
    }

    /** Re-Capture: hide the canvas, leaving its picture alone, and go back
        to the video and the Capture button. */
    method Recapture()
      modifies this
      ensures Valid() && Mode() == Live
      ensures !canvasShown && videoShown && captureShown
      ensures !recaptureShown && !saveShown && !removeShown
      ensures canvas == old(canvas)
    {
      canvasShown := false;
      videoShown := true;
      captureShown := true;
      recaptureShown := false;
      saveShown := false;
      removeShown := false;
    }

    /** Remove: clear the canvas and go back to the video and the Capture
        button.  The canvas element itself is not hidden: after Remove from
        Captured it stays on screen, empty, beside the video. */
    method Remove()
      modifies this
      ensures Valid() && Mode() == Live
      ensures videoShown && captureShown
      ensures !recaptureShown && !saveShown && !removeShown
      ensures canvas == Cleared && canvasShown == old(canvasShown)
    {
      canvas := Cleared;
      recaptureShown := false;
      saveShown := false;
      removeShown := false;
      videoShown := true;
      captureShown := true;
    }
  }

  /** Capture and then Remove: back in Live with an empty canvas that is
      still displayed.  Capture and then Re-Capture: back in Live with the
      frame kept, hidden, on the canvas. */
  method CaptureThenLeave(frame: nat)
  {
    var page := new CapturePage();
    page.Capture(Some(frame));
    page.Remove();
    assert page.Mode() == Live && page.canvasShown && page.canvas == Cleared;

    var other := new CapturePage();
    other.Capture(Some(frame));
    other.Recapture();
    assert other.Mode() == Live && !other.canvasShown && other.canvas == Frame(frame);
  }
}
