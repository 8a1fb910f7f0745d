/** The per-frame state of `MainActivity`: the Canny toggle, the frame
    processing that packs the camera image and calls the feature hook only
    while the toggle is on, and the image listener that closes every image it
    acquired, whatever `processImage` throws. The OpenCV colour conversions
    and the RGBA hand-off to the renderer are not part of this model. */
module CameraActivity {
  import opened Java
  import opened Nv21Packing

  /** What `processImage` produces from one camera image before the OpenCV
      calls: the packed NV21 bytes, and whether `FindFeatures` is called. */
  datatype Frame = Frame(nv21: seq<byte>, featureHookCalled: bool)

  /** How one call of the image listener ends. */
  datatype ListenerOutcome =
    | NoImage                 // acquireLatestImage() returned null
    | Processed(frame: Frame) // processImage returned normally
    | Caught(error: Fault)    // processImage threw; the listener logged it

  /** An acquired `android.media.Image`: its pixel planes and whether
      `close()` has been called on it. */
  class CameraImage {
    const content: Image
    var closed: bool

    constructor (content: Image)
      ensures this.content == content && !closed
    {
      this.content := content;
      closed := false;
    }

    method Close()
      modifies this
      ensures closed
    {
      closed := true;
    }
  }

  class MainActivity {
    /** Whether the Canny hook runs on each frame. */
    var showCanny: bool

    constructor ()
      ensures showCanny
    {
      showCanny := true;
    }

    /** The toggle button's click listener. */
    method OnToggleClick()
      modifies this
      ensures showCanny == !old(showCanny)
    {
      showCanny := !showCanny;
    }

    /** `processImage` up to the feature hook: the packing either throws, and
        nothing else happens, or yields the packed bytes, and the hook is called
        exactly when `showCanny` is set. The toggle itself is left alone. */
    method ProcessImage(img: Image) returns (r: Result<Frame>)
      ensures r.Success? <==> PackNv21(img).Success?
      ensures r.Success? ==> r.value.nv21 == PackNv21(img).value
      ensures r.Success? ==> (r.value.featureHookCalled <==> showCanny)
      ensures r.Failure? ==> r.error == PackNv21(img).error
    {
      var nv21 :- PackPlanes(img);
      var hook := false;
      if showCanny {
        hook := true;
      }
      return Success(Frame(nv21, hook));
    }

    /** The `OnImageAvailableListener`: a null image does nothing; otherwise
        it is processed, a fault is caught, and the image is closed on every
        path. */
    method OnImageAvailable(image: CameraImage?) returns (outcome: ListenerOutcome)
      modifies image
      ensures image == null ==> outcome == NoImage
      ensures image != null ==> image.closed
      ensures image != null ==> (outcome.Caught? <==> PackNv21(image.content).Failure?)
      ensures image != null && outcome.Caught? ==> outcome.error == PackNv21(image.content).error
      ensures image != null && !outcome.Caught? ==>
        outcome == Processed(Frame(PackNv21(image.content).value, showCanny))
      ensures showCanny == old(showCanny)
    {
      if image == null {
        return NoImage;
      }
      var r := ProcessImage(image.content);
      if r.Failure? {
        outcome := Caught(r.error);
      } else {
        outcome := Processed(r.value);
      }
      image.Close();
    }
  }

  /** Two clicks restore the toggle. */
  method ClickTwice(activity: MainActivity)
    modifies activity
    ensures activity.showCanny == old(activity.showCanny)
  {
    activity.OnToggleClick();
    activity.OnToggleClick();
  }

  /** One click after start-up turns the hook off for the next frame. */
  method FirstClickDisablesHook(img: Image) returns (r: Result<Frame>)
    ensures r.Success? ==> !r.value.featureHookCalled
  {
    var activity := new MainActivity();
    activity.OnToggleClick();
    r := activity.ProcessImage(img);
  }
}
