/**
 * The control state of the face-enrollment application as a value, and one
 * function per entry point: the per-frame tick of the video loop, the
 * "Add User" button and the recognizer toggle. The class in application.dfy
 * updates the same fields in place and is proved to follow these functions;
 * the lemmas at the end state what whole runs of ticks produce.
 *
 * Camera, face detector, image resizing and the file system are not modelled:
 * a frame is known by a tick number, a detection is a box, a face crop is the
 * pair of both, a written image is an entry appended to a log, and a created
 * directory is a member of a set.
 */
module Control {
  import opened Wrappers
  import Decimal
  import Recognition

  /** A detected face rectangle `(x, y, w, h)` as the cascade detector reports it. */
  datatype Box = Box(x: int, y: int, w: int, h: int)

  /** The grayscale region `gray[y:y+h, x:x+w]` of the frame captured at tick `frame`. */
  datatype Crop = Crop(frame: nat, box: Box)

  /** One `cv2.imwrite`: the file path and the face crop it stores (resized to 30x30). */
  datatype Image = Image(path: string, face: Crop)

  /**
   * The persisted network, seen as a function from a face to one score per
   * class, and the label binarizer's `classes_`.
   */
  datatype Classifier = Classifier(model: Crop -> seq<int>, classes: seq<string>) {
    /** The binarizer knows a class and the network's output width equals the number of classes. */
    ghost predicate Matched() {
      |classes| > 0 && forall c :: |model(c)| == |classes|
    }
  }

  /**
   * The fields of `Application` that the live loop and the buttons read and
   * write, followed by the directories created and the images written so far.
   */
  datatype App = App(
    count: nat,
    uname: Option<string>,
    dataPath: string,
    lastFace: Option<Crop>,
    rec: bool,
    dirs: set<string>,
    images: seq<Image>)

  /** The last counter value that the loop still saves an image for. */
  const EnrollLimit: nat := 50

  /** The directory of one user's images. */
  function DirOf(name: string): (dir: string)
    ensures |dir| == |name| + 9 && dir[..8] == "dataset/" && dir[8..|dir| - 1] == name && dir[|dir| - 1] == '/'
  {
    "dataset/" + name + "/"
  }

  /** The path of the `k`-th image of user `name` inside directory `dir`: `<dir><name>.<k>.jpg`. */
  function FileName(dir: string, name: string, k: nat): (path: string)
    ensures dir <= path && |path| >= |dir| + |name| + 6
    ensures path[|path| - 4..] == ".jpg"
  {
    dir + name + "." + Decimal.Format(k) + ".jpg"
  }

  /**
   * What every reachable state satisfies: once a capture has happened, a user
   * name has been read, its directory is the data path and exists, and a face
   * has been seen.
   */
  predicate Valid(a: App) {
    a.count > 0 ==>
      a.uname.Some? && a.lastFace.Some? && a.dataPath == DirOf(a.uname.value) && a.dataPath in a.dirs
  }

  /** The state `__init__` sets up; `dataPath` is the constructor's argument. */
  function Init(dataPath: string): (a: App)
    ensures Valid(a)
    ensures a.count == 0 && a.uname.None? && a.lastFace.None? && !a.rec
    ensures a.dataPath == dataPath && a.dirs == {} && a.images == []
  {
    App(0, None, dataPath, None, false, {}, [])
  }

  /**
   * The effect of the detection loop on the last-face slot: every box in
   * iteration order overwrites the slot with its crop, so the last box wins
   * and a frame with no box keeps the previous face.
   */
  function SeeFaces(last: Option<Crop>, frame: nat, faces: seq<Box>): (r: Option<Crop>)
    ensures r == if faces == [] then last else Some(Crop(frame, faces[|faces| - 1]))
    decreases |faces|
  {
    if faces == [] then last else SeeFaces(Some(Crop(frame, faces[0])), frame, faces[1..])
  }

  /**
   * The "Add User" action. At counter 0 it reads the entered name and derives
   * the user's directory; at any other counter it keeps both. It creates the
   * directory if missing, then writes the current face under the counter's
   * index and advances the counter. With no face seen yet, resizing the empty
   * slot raises after the name and directory are set: nothing is written and
   * the counter stays.
   */
  function AddUser(a: App, enteredName: string): (r: App)
    requires Valid(a)
    ensures Valid(r)
    ensures a.count == 0 ==> r.uname == Some(enteredName) && r.dataPath == "dataset/" + enteredName + "/"
    ensures a.count != 0 ==> r.uname == a.uname && r.dataPath == a.dataPath
    ensures r.dirs == a.dirs + {r.dataPath}
    ensures a.lastFace.Some? ==>
      r.count == a.count + 1 &&
      r.images == a.images + [Image(r.dataPath + r.uname.value + "." + Decimal.Format(a.count) + ".jpg", a.lastFace.value)]
    ensures a.lastFace.None? ==> r.count == a.count && r.images == a.images
    ensures r.lastFace == a.lastFace && r.rec == a.rec
  {
    var name := if a.count == 0 then enteredName else a.uname.value;
    var dir := if a.count == 0 then DirOf(enteredName) else a.dataPath;
    var named := a.(uname := Some(name), dataPath := dir, dirs := a.dirs + {dir});
    if a.lastFace.None? then named
    else named.(images := a.images + [Image(FileName(dir, name, a.count), a.lastFace.value)], count := a.count + 1)
  }

  /** The recognizer toggle: flips the flag and nothing else. */
  function ToggleRec(a: App): (r: App)
    ensures r.rec == !a.rec && r.(rec := a.rec) == a
    ensures Valid(a) ==> Valid(r)
  {
    if a.rec then a.(rec := false) else a.(rec := true)
  }

  /** Toggling twice restores the state. */
  lemma ToggleTwice(a: App)
    ensures ToggleRec(ToggleRec(a)) == a
  {
  }

  /**
   * What a tick needs to run to the end: when recognition is on, a face must
   * be available (the loop does not guard against none) and the classifier's
   * output must match its classes.
   */
  ghost predicate CanTick(a: App, faces: seq<Box>, clf: Classifier) {
    a.rec ==> (faces != [] || a.lastFace.Some?) && clf.Matched()
  }

  /** The state after a tick and the prediction drawn on the frame, if any. */
  datatype TickResult = TickResult(app: App, shown: Option<Recognition.Prediction>)

  /**
   * One pass of the video loop over the boxes detected in frame `frame`:
   * update the last face, save an image while the counter is in 1..50,
   * reset a counter above 50, and recognize the last face when the flag is on.
   * A capture runs only at a non-zero counter, where "Add User" keeps the
   * stored name and never reads the name field, so the stored name is passed.
   */
  function Tick(a: App, frame: nat, faces: seq<Box>, clf: Classifier): (r: TickResult)
    requires Valid(a) && CanTick(a, faces, clf)
    ensures Valid(r.app)
    ensures r.app.count <= EnrollLimit
    ensures r.app.count == if 1 <= a.count < EnrollLimit then a.count + 1 else 0
    ensures r.app.lastFace == if faces == [] then a.lastFace else Some(Crop(frame, faces[|faces| - 1]))
    ensures 1 <= a.count <= EnrollLimit ==>
      r.app.images == a.images + [Image(FileName(a.dataPath, a.uname.value, a.count), r.app.lastFace.value)]
    ensures !(1 <= a.count <= EnrollLimit) ==> r.app.images == a.images
    ensures r.app.uname == a.uname && r.app.dataPath == a.dataPath && r.app.dirs == a.dirs
    ensures r.app.rec == a.rec
    ensures r.shown.Some? <==> a.rec
    ensures r.shown.Some? ==> r.shown.value == Recognition.Predict(clf.model(r.app.lastFace.value), clf.classes)
  {
    var seen := a.(lastFace := SeeFaces(a.lastFace, frame, faces));
    var added := if seen.count <= EnrollLimit && seen.count != 0 then AddUser(seen, seen.uname.value) else seen;
    var settled := if added.count > EnrollLimit then added.(count := 0) else added;
    var shown := if settled.rec then Some(Recognition.Predict(clf.model(settled.lastFace.value), clf.classes)) else None;
    TickResult(settled, shown)
  }

  /** The inputs of one tick: the frame number and the detected boxes. */
  datatype Input = Input(frame: nat, faces: seq<Box>)

  /** A state from which every tick can run, whatever it detects. */
  ghost predicate Ready(a: App, clf: Classifier) {
    Valid(a) && (a.rec ==> a.lastFace.Some? && clf.Matched())
  }

  /** Ticks run one after another, with no button pressed in between. */
  function Ticks(a: App, inputs: seq<Input>, clf: Classifier): (r: App)
    requires Ready(a, clf)
    ensures Ready(r, clf)
    ensures r.uname == a.uname && r.dataPath == a.dataPath && r.rec == a.rec && r.dirs == a.dirs
    ensures |inputs| > 0 ==> r.count <= EnrollLimit
    decreases |inputs|
  {
    if inputs == [] then a
    else
      var t := Tick(a, inputs[0].frame, inputs[0].faces, clf).app;
      Ticks(t, inputs[1..], clf)
  }

  /** The paths of a log of written images, in writing order. */
  function Paths(imgs: seq<Image>): (ps: seq<string>)
    ensures |ps| == |imgs|
  {
    if imgs == [] then [] else Paths(imgs[..|imgs| - 1]) + [imgs[|imgs| - 1].path]
  }

  /** The image paths of user `name` in `dir` with indices `lo` to `hi`, in increasing order. */
  function EnrollmentPaths(dir: string, name: string, lo: nat, hi: nat): seq<string>
    decreases hi + 1 - lo
  {
    if lo > hi then [] else [FileName(dir, name, lo)] + EnrollmentPaths(dir, name, lo + 1, hi)
  }

  /** There are `hi + 1 - lo` of those paths. */
  lemma {:induction false} EnrollmentPathsLength(dir: string, name: string, lo: nat, hi: nat)
    requires lo <= hi + 1
    ensures |EnrollmentPaths(dir, name, lo, hi)| == hi + 1 - lo
    decreases hi + 1 - lo
  {
    if lo <= hi {
      EnrollmentPathsLength(dir, name, lo + 1, hi);
    }
  }

  /** The `k`-th of those paths carries index `lo + k`. */
  lemma {:induction false} EnrollmentPathsAt(dir: string, name: string, lo: nat, hi: nat, k: nat)
    requires lo + k <= hi
    ensures k < |EnrollmentPaths(dir, name, lo, hi)|
    ensures EnrollmentPaths(dir, name, lo, hi)[k] == FileName(dir, name, lo + k)
    decreases k
  {
    var rest := EnrollmentPaths(dir, name, lo + 1, hi);
    assert EnrollmentPaths(dir, name, lo, hi) == [FileName(dir, name, lo)] + rest;
    if k > 0 {
      EnrollmentPathsAt(dir, name, lo + 1, hi, k - 1);
    }
  }

  /** Those paths all lie in `dir` and are pairwise distinct. */
  lemma EnrollmentPathsDistinct(dir: string, name: string, lo: nat, hi: nat)
    requires lo <= hi + 1
    ensures forall k :: 0 <= k < |EnrollmentPaths(dir, name, lo, hi)| ==> dir <= EnrollmentPaths(dir, name, lo, hi)[k]
    ensures forall i, j :: 0 <= i < j < |EnrollmentPaths(dir, name, lo, hi)| ==>
              EnrollmentPaths(dir, name, lo, hi)[i] != EnrollmentPaths(dir, name, lo, hi)[j]
  {
    var ps := EnrollmentPaths(dir, name, lo, hi);
    EnrollmentPathsLength(dir, name, lo, hi);
    forall k | 0 <= k < |ps|
      ensures dir <= ps[k]
    {
      EnrollmentPathsAt(dir, name, lo, hi, k);
    }
    forall i, j | 0 <= i < j < |ps|
      ensures ps[i] != ps[j]
    {
      EnrollmentPathsAt(dir, name, lo, hi, i);
      EnrollmentPathsAt(dir, name, lo, hi, j);
      FileNameInjective(dir, name, lo + i, lo + j);
    }
  }

  /** One tick while enrolling saves the image with the current index and advances the counter. */
  lemma EnrollmentStep(a: App, inputs: seq<Input>, clf: Classifier)
    requires Ready(a, clf) && 1 <= a.count <= EnrollLimit && |inputs| > 0
    ensures var t := Ticks(a, inputs[..1], clf);
      && Ticks(a, inputs, clf) == Ticks(t, inputs[1..], clf)
      && t.count == (if a.count < EnrollLimit then a.count + 1 else 0)
      && t.uname == a.uname && t.dataPath == a.dataPath
      && a.images <= t.images
      && Paths(t.images) == Paths(a.images) + [FileName(a.dataPath, a.uname.value, a.count)]
  {
    var t := Tick(a, inputs[0].frame, inputs[0].faces, clf).app;
    assert t.images[..|t.images| - 1] == a.images;
  }

  /**
   * From counter `c` in 1..50, the next `51 - c` ticks save the images with
   * indices `c` to 50 in order, under the same user and directory, and end
   * with the counter back at 0.
   */
  lemma {:induction false} EnrollmentTicks(a: App, inputs: seq<Input>, clf: Classifier)
    requires Ready(a, clf) && 1 <= a.count <= EnrollLimit && |inputs| == EnrollLimit + 1 - a.count
    ensures var r := Ticks(a, inputs, clf);
      && r.count == 0
      && a.images <= r.images
      && Paths(r.images) == Paths(a.images) + EnrollmentPaths(a.dataPath, a.uname.value, a.count, EnrollLimit)
    decreases |inputs|
  {
    var t := Ticks(a, inputs[..1], clf);
    EnrollmentStep(a, inputs, clf);
    var first := FileName(a.dataPath, a.uname.value, a.count);
    if a.count < EnrollLimit {
      EnrollmentTicks(t, inputs[1..], clf);
      var rest := EnrollmentPaths(a.dataPath, a.uname.value, a.count + 1, EnrollLimit);
      assert EnrollmentPaths(a.dataPath, a.uname.value, a.count, EnrollLimit) == [first] + rest;
      AppendThenConcat(Paths(a.images), first, Paths(t.images), rest, Paths(Ticks(t, inputs[1..], clf).images));
    } else {
      assert inputs[1..] == [];
      assert EnrollmentPaths(a.dataPath, a.uname.value, a.count + 1, EnrollLimit) == [];
    }
  }

  /** Appending one element and then a run equals appending the run that starts with that element. */
  lemma AppendThenConcat<T>(prefix: seq<T>, x: T, mid: seq<T>, rest: seq<T>, whole: seq<T>)
    requires mid == prefix + [x] && whole == mid + rest
    ensures whole == prefix + ([x] + rest)
  {
  }

  /** With the counter at 0 and no button press, any number of ticks writes nothing. */
  lemma {:induction false} IdleTicks(a: App, inputs: seq<Input>, clf: Classifier)
    requires Ready(a, clf) && a.count == 0
    ensures Ticks(a, inputs, clf).count == 0
    ensures Ticks(a, inputs, clf).images == a.images
    decreases |inputs|
  {
    if inputs != [] {
      var t := Tick(a, inputs[0].frame, inputs[0].faces, clf).app;
      IdleTicks(t, inputs[1..], clf);
    }
  }

  /**
   * A full enrollment: with a face already seen and the counter at 0, one
   * "Add User" press followed by 50 ticks appends 51 images, with indices 0 to
   * 50 in order, all under `dataset/<name>/`, with pairwise distinct paths,
   * and leaves the counter at 0.
   */
  lemma FullEnrollment(a: App, enteredName: string, inputs: seq<Input>, clf: Classifier)
    requires Ready(a, clf) && a.count == 0 && a.lastFace.Some? && |inputs| == EnrollLimit
    ensures var r := Ticks(AddUser(a, enteredName), inputs, clf);
      var saved := EnrollmentPaths(DirOf(enteredName), enteredName, 0, EnrollLimit);
      && r.count == 0
      && r.uname == Some(enteredName) && r.dataPath == DirOf(enteredName)
      && a.images <= r.images
      && Paths(r.images) == Paths(a.images) + saved
      && |saved| == EnrollLimit + 1
      && (forall k :: 0 <= k < |saved| ==> saved[k] == FileName(DirOf(enteredName), enteredName, k))
      && (forall k :: 0 <= k < |saved| ==> DirOf(enteredName) <= saved[k])
      && (forall i, j :: 0 <= i < j < |saved| ==> saved[i] != saved[j])
  {
    EnrollmentPathsFrom0(DirOf(enteredName), enteredName);
    EnrollmentRun(a, enteredName, inputs, clf);
  }

  /** The run of `FullEnrollment`: the press saves index 0 and the ticks save 1 to 50. */
  lemma EnrollmentRun(a: App, enteredName: string, inputs: seq<Input>, clf: Classifier)
    requires Ready(a, clf) && a.count == 0 && a.lastFace.Some? && |inputs| == EnrollLimit
    ensures var r := Ticks(AddUser(a, enteredName), inputs, clf);
      && r.count == 0
      && r.uname == Some(enteredName) && r.dataPath == DirOf(enteredName)
      && a.images <= r.images
      && Paths(r.images) == Paths(a.images) + EnrollmentPaths(DirOf(enteredName), enteredName, 0, EnrollLimit)
  {
    var added := AddUser(a, enteredName);
    var dir := DirOf(enteredName);
    var first := FileName(dir, enteredName, 0);
    var rest := EnrollmentPaths(dir, enteredName, 1, EnrollLimit);
    EnrollmentStart(a, enteredName);
    EnrollmentTicks(added, inputs, clf);
    var r := Ticks(added, inputs, clf);
    AppendThenConcat(Paths(a.images), first, Paths(added.images), rest, Paths(r.images));
    assert EnrollmentPaths(dir, enteredName, 0, EnrollLimit) == [first] + rest;
  }

  /** The press that starts an enrollment saves index 0 under the entered name. */
  lemma EnrollmentStart(a: App, enteredName: string)
    requires Valid(a) && a.count == 0 && a.lastFace.Some?
    ensures var added := AddUser(a, enteredName);
      && added.count == 1 && added.uname == Some(enteredName) && added.dataPath == DirOf(enteredName)
      && a.images <= added.images
      && Paths(added.images) == Paths(a.images) + [FileName(DirOf(enteredName), enteredName, 0)]
  {
    var added := AddUser(a, enteredName);
    assert added.images[..|added.images| - 1] == a.images;
  }

  /** The 51 paths of one enrollment: indices 0 to 50 in order, all in `dir`, pairwise distinct. */
  lemma EnrollmentPathsFrom0(dir: string, name: string)
    ensures var saved := EnrollmentPaths(dir, name, 0, EnrollLimit);
      && |saved| == EnrollLimit + 1
      && (forall k :: 0 <= k < |saved| ==> saved[k] == FileName(dir, name, k))
      && (forall k :: 0 <= k < |saved| ==> dir <= saved[k])
      && (forall i, j :: 0 <= i < j < |saved| ==> saved[i] != saved[j])
  {
    var saved := EnrollmentPaths(dir, name, 0, EnrollLimit);
    EnrollmentPathsLength(dir, name, 0, EnrollLimit);
    forall k | 0 <= k < |saved|
      ensures saved[k] == FileName(dir, name, k)
    {
      EnrollmentPathsAt(dir, name, 0, EnrollLimit, k);
    }
    EnrollmentPathsDistinct(dir, name, 0, EnrollLimit);
  }

  /** Within one directory and user, two image paths agree exactly when their indices do. */
  lemma FileNameInjective(dir: string, name: string, i: nat, j: nat)
    ensures FileName(dir, name, i) == FileName(dir, name, j) <==> i == j
  {
    if FileName(dir, name, i) == FileName(dir, name, j) {
      CancelAround(dir + name + ".", Decimal.Format(i), Decimal.Format(j), ".jpg");
      Decimal.FormatInjective(i, j);
    }
  }

  /** A common prefix and suffix cancel from an equation between concatenations. */
  lemma CancelAround(p: string, x: string, y: string, s: string)
    requires p + x + s == p + y + s
    ensures x == y
  {
    assert |x| == |y|;
    assert x == (p + x + s)[|p|..|p| + |x|];
    assert y == (p + y + s)[|p|..|p| + |y|];
  }
}
