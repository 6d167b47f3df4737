# Face enrollment and recognition: control state

This project models the control state of the `Application` object in `GUI.py`,
a Tkinter front end that shows a webcam feed, detects faces, enrolls a user by
saving face crops, and overlays the trained network's prediction. The model
covers five fields: the capture counter `count`, the user name `uname`, the
output directory `dataPath`, the last detected face `lastFace` and the
recognizer flag `rec`. It covers three entry points:

- the per-frame video loop (`videoLoop`), modelled as `Tick`;
- the "Add User" button (`addUser`);
- the "Toggel Recognizer" button (`toggelRec`), modelled as `ToggleRec`.

Files:

- `wrappers.dfy`: `Option`, standing for Python's `None`-or-value fields.
- `decimal.dfy`: Python's `str` on the counter, with a parser that
  inverts it. So distinct counters give distinct file names.
- `recognition.dfy`: `argmax` over the network's scores (first maximum, as
  numpy picks it) and the lookup of the class name in the label binarizer.
- `control.dfy`: the fields as a value `App`, one function per entry point,
  and lemmas about runs of ticks. The camera, detector and file system are
  abstracted. A frame is a tick number and a detection is a `Box`. A face crop
  is the pair of the two. A written image is an entry in a log of `Image`s,
  and a created directory is a member of a set.
- `application.dfy`: the class `Application`. Its methods update those fields
  in place. Each is proved to produce exactly the state the matching `Control`
  function gives. The `for` loop over detected boxes is kept, with its
  invariant.

Behaviour the model proves, as the code is written:

- The counter check tests `count <= 50 and count != 0`, and the reset tests
  `count > 50`. So a press of "Add User" followed by 50 ticks writes 51 images,
  with indices 0 to 50, not 50 images (`FullEnrollment`). The 51 paths are
  pairwise distinct and all lie under `dataset/<name>/`.
- After every tick the counter is at most 50, whatever it was before
  (`Control.Tick`). Presses between ticks can push it above 51, but the next
  tick resets it.
- If no face has been seen, `addUser` still sets the name, sets the directory
  and creates the directory. Then `cv2.resize(None)` raises, before the image
  is written and before the counter moves. The model keeps those state changes
  and adds no image. The class method reports this as `ok == false`.
- The code never checks the entered name itself. Its only tests are on the
  counter: `count == 0` in `addUser`, `count <= 50 and count != 0` and
  `count > 50` in the loop. So an empty name is accepted.

## Model

| member | source | states |
|---|---|---|
| `Decimal.Format` | GUI.py:210 | `str(count)` is a non-empty run of digits. It starts with `0` only for 0, and it has one digit exactly when the counter is below 10 |
| `Decimal.ParseFormat` | GUI.py:210 | reading the rendered counter back as a number gives the counter |
| `Decimal.FormatInjective` | GUI.py:210 | two counters render to the same text if and only if they are equal |
| `Control.DirOf` | GUI.py:207 | the user directory is `dataset/`, then the name, then `/` |
| `Control.FileName` | GUI.py:210 | an image path starts with the data path and ends in `.jpg` |
| `Control.FileNameInjective` | GUI.py:210 | for one directory and user, two image paths are equal if and only if their indices are |
| `Control.Init` | GUI.py:23-28 | the initial state: counter 0, no user name, no last face, recognizer off, data path as given, nothing written |
| `Control.SeeFaces` | GUI.py:73-77 | after the detection loop, the last-face slot holds the crop of the last box in iteration order. With no box it keeps the previous face |
| `Control.AddUser` | GUI.py:196-211 | at counter 0: reads the entered name and sets the data path to `dataset/<name>/`. At any other counter: leaves both alone. Always creates the directory. With a face: appends exactly one image `<dataPath><uname>.<count>.jpg` holding that face and adds 1 to the counter. With no face: writes nothing and leaves the counter alone. The last face and the flag never change |
| `Control.ToggleRec` | GUI.py:108-112 | negates `rec` and changes no other field |
| `Control.ToggleTwice` | GUI.py:108-112 | toggling twice restores the state |
| `Control.Tick` | GUI.py:65-98 | after any tick the counter is at most 50. Counter 0 writes nothing and stays 0. A counter in 1..50 writes the image with that index, from this tick's last face. Counters 50 and above end at 0 in the same tick. The user, the data path, the directories and the flag stay. A prediction is shown exactly when `rec` is on, and it is the prediction for the stored face |
| `Control.Ticks` | GUI.py:106 | repeated ticks keep the state valid and ready for the next tick. They keep the user, the path and the flag, and leave the counter at most 50 |
| `Control.EnrollmentStart` | GUI.py:201-211 | a press at counter 0 with a face seen sets the entered user and `dataset/<name>/`, appends the path with index 0, and moves the counter to 1 |
| `Control.EnrollmentStep` | GUI.py:80-84 | one tick at counter `c` in 1..50 appends the path with index `c` and moves the counter to `c + 1`, or to 0 when `c` is 50 |
| `Control.EnrollmentTicks` | GUI.py:80-84 | from counter `c` in 1..50, the next `51 - c` ticks append the paths with indices `c` to 50 in order and end at counter 0 |
| `Control.IdleTicks` | GUI.py:80-84 | at counter 0 with no button press, any number of ticks writes nothing and keeps the counter at 0 |
| `Control.EnrollmentPathsLength` | GUI.py:210 | the paths for indices `lo` to `hi` number `hi + 1 - lo` |
| `Control.EnrollmentPathsAt` | GUI.py:210 | the `k`-th of those paths has index `lo + k` |
| `Control.EnrollmentPathsDistinct` | GUI.py:210 | those paths all lie in the directory and are pairwise distinct |
| `Control.EnrollmentPathsFrom0` | GUI.py:210 | the paths of one enrollment are 51 distinct names `dataset/<name>/<name>.<k>.jpg` for `k` = 0..50 |
| `Control.EnrollmentRun` | GUI.py:80-84 | an "Add User" press at counter 0 with a face seen, then 50 ticks, appends the paths with indices 0 to 50 and ends at counter 0 with the entered user |
| `Control.FullEnrollment` | GUI.py:80-84 | the same run, summed up: exactly 51 new images, with indices 0..50, pairwise distinct paths, all under `dataset/<name>/`, and the counter back at 0 |
| `Recognition.ArgMax` | GUI.py:93 | the chosen index is in bounds and its score is maximal. It is the first index with that score |
| `Recognition.Predict` | GUI.py:92-94 | the reported class is `classes[i]` for a maximal, in-bounds score `i`, and the reported score is `scores[i]` |
| `Gui.Application.constructor` | GUI.py:18-28 | the fields start as `Control.Init` says, and the loaded classifier is stored |
| `Gui.Application.AddUser` | GUI.py:196-211 | updates the fields and the logs exactly as `Control.AddUser`. Returns whether an image was written |
| `Gui.Application.Tick` | GUI.py:65-98 | the overwrite loop and the counter logic update the fields exactly as `Control.Tick`. Returns the prediction `Control.Tick` shows |
| `Gui.Application.ToggleRec` | GUI.py:108-112 | updates the fields exactly as `Control.ToggleRec` |

## Left out

- Camera capture, the Haar-cascade detector, `cv2.cvtColor`, `cv2.resize`, `cv2.flip`, `cv2.rectangle` and `cv2.putText` are foreign library calls. A tick receives its frame number and boxes as inputs, and a crop is the pair of the two.
- `cv2.imwrite` and `os.makedirs` are file I/O. They append to a ghost log of images and add to a ghost set of directories. A second enrollment under the same name writes the same paths again; the log keeps both writes and does not model overwriting.
- The `ref` test at GUI.py:86 is not modelled. A failed capture makes `cv2.cvtColor` raise at line 70, before that test, so in the model every tick has a frame.
- Recognition with no face ever seen makes `cv2.resize(None)` raise and stops the video loop. This is the case the TODO at line 79 notes. The model makes it a precondition (`Control.CanTick`) rather than an outcome.
- The network is a function from a face crop to integer scores. Only the order of the scores matters to `argmax`. Floating-point probabilities, the `/255.0` normalisation and the `"{}: {:.2f}%"` text are not modelled.
- `Classifier.Matched` (the network's output width equals the binarizer's class count, and that count is non-zero) is a simplification of the model, required by `Control.CanTick` and, as equal lengths, by `Recognition.Predict`. The program itself fails for certain only with an empty score row or an empty class list. With fewer scores than classes the lookup `lb.classes_[i]` always succeeds, and with more it raises only when the best score lies beyond the last class. The model excludes both mismatched widths, including the narrower one the program handles.
- `Control.Ticks`: requires a face already stored whenever `rec` is on. A single tick would also accept a face arriving in that frame, so this is a little stronger than the code needs. This precondition is carried by `Control.EnrollmentStep`, `Control.EnrollmentTicks`, `Control.IdleTicks`, `Control.EnrollmentRun` and `Control.FullEnrollment`.
- `trainNeural` (GUI.py:114-194) is left out. It is TensorFlow model building and fitting, scikit-learn splitting and label binarizing, and matplotlib plotting: library numerics with no control logic to model.
- Loading the model and binarizer at start-up and `saveLB`/`load` (GUI.py:30-31, 221-238) are file I/O and pickling. The loaded pair is a constructor argument.
- Tkinter widgets, layout, `root.after` scheduling, the thread that starts the loop, `destructor`, and the `print("[INFO] ...")` console messages (among them "adding User..." at GUI.py:206 and "Face Added to folder" at GUI.py:83) are user interface, logging and resource release. Scheduling appears only as ticks running one after another.
