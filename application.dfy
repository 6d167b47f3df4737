/**
 * The `Application` object of the GUI with the fields the live loop and the
 * buttons update in place. Each method is proved to change the fields exactly
 * as the matching function of module `Control` says; the images written and
 * the directories created are kept as ghost state.
 */
module Gui {
  import opened Wrappers
  import Decimal
  import Recognition
  import Control

  class Application {
    var count: nat
    var uname: Option<string>
    var dataPath: string
    var lastFace: Option<Control.Crop>
    var rec: bool

    /** The network and label binarizer loaded at start-up; never changed afterwards. */
    const clf: Control.Classifier

    /** Directories created so far (`os.makedirs`). */
    ghost var dirs: set<string>
    /** Images written so far (`cv2.imwrite`), oldest first. */
    ghost var images: seq<Control.Image>

    /** The fields as one value of the control model. */
    ghost function State(): Control.App
      reads this
    {
      Control.App(count, uname, dataPath, lastFace, rec, dirs, images)
    }

    ghost predicate Valid()
      reads this
    {
      Control.Valid(State())
    }

    /** The initial state: nothing captured, no user, no face, recognition off. */
    constructor (dataPath: string, clf: Control.Classifier)
      ensures Valid() && State() == Control.Init(dataPath)
      ensures this.clf.model == clf.model && this.clf.classes == clf.classes
    {
      this.dataPath := dataPath;
      lastFace := None;
      count := 0;
      uname := None;
      rec := false;
      this.clf := clf;
      dirs := {};
      images := [];
    }

    /**
     * The "Add User" button; `enteredName` is the text in the name field.
     * Returns false when no face has been seen yet: the resize of the empty
     * slot raises, after the name and directory have been set.
     */
    method AddUser(enteredName: string) returns (ok: bool)
      requires Valid()
      modifies this
      ensures Valid()
      ensures State() == Control.AddUser(old(State()), enteredName)
      ensures ok == old(lastFace).Some?
    {
      if count == 0 {
        uname := Some(enteredName);
        dataPath := "dataset/" + enteredName + "/";
      }
      dirs := dirs + {dataPath};
      if lastFace.None? {
        return false;
      }
      images := images + [Control.Image(dataPath + uname.value + "." + Decimal.Format(count) + ".jpg", lastFace.value)];
      count := count + 1;
      ok := true;
    }

    /**
     * One pass of the video loop over the boxes the detector found in frame
     * `frame`; returns what is drawn on the frame when recognition is on.
     */
    method Tick(frame: nat, faces: seq<Control.Box>) returns (shown: Option<Recognition.Prediction>)
      requires Valid() && Control.CanTick(State(), faces, clf)
      modifies this
      ensures Valid()
      ensures State() == Control.Tick(old(State()), frame, faces, clf).app
      ensures shown == Control.Tick(old(State()), frame, faces, clf).shown
    {
      ghost var before := State();
      for k := 0 to |faces|
        invariant lastFace == if k == 0 then before.lastFace else Some(Control.Crop(frame, faces[k - 1]))
        invariant State() == before.(lastFace := lastFace)
      {
        lastFace := Some(Control.Crop(frame, faces[k]));
      }
      if count <= Control.EnrollLimit && count != 0 {
        var _ := AddUser(uname.value);
      }
      if count > Control.EnrollLimit {
        count := 0;
      }
      if rec {
        shown := Some(Recognition.Predict(clf.model(lastFace.value), clf.classes));
      } else {
        shown := None;
      }
    }

    /** The "Toggel Recognizer" button. */
    method ToggleRec()
      requires Valid()
      modifies this
      ensures Valid()
      ensures State() == Control.ToggleRec(old(State()))
    {
      if rec {
        rec := false;
      } else {
        rec := true;
      }
    }
  }
}
