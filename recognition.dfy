/**
 * The label-selection step of recognition: the network's scores for one face
 * (`model.predict`), the index of the best score (`argmax`) and the binarizer's
 * class name at that index (`lb.classes_[i]`). Scores are integers here; only
 * their order matters to the selection.
 */
module Recognition {

  /** What the overlay reports: the chosen class index, its class name and its score. */
  datatype Prediction = Prediction(index: nat, className: string, score: int)

  /**
   * Index of the largest score; among equal largest scores the first one,
   * as numpy's `argmax` chooses.
   */
  function ArgMax(scores: seq<int>): (i: nat)
    requires |scores| > 0
    ensures i < |scores|
    ensures forall j :: 0 <= j < |scores| ==> scores[j] <= scores[i]
    ensures forall j :: 0 <= j < i ==> scores[j] < scores[i]
    decreases |scores|
  {
    if |scores| == 1 then 0
    else
      var k := ArgMax(scores[..|scores| - 1]);
      if scores[k] < scores[|scores| - 1] then |scores| - 1 else k
  }

  /**
   * The class reported for one face: the network emits one score per class
   * known to the label binarizer, and the label is the class at the best score.
   */
  function Predict(scores: seq<int>, classes: seq<string>): (p: Prediction)
    requires |scores| == |classes| > 0
    ensures p.index < |classes| && p.className == classes[p.index] && p.score == scores[p.index]
    ensures forall j :: 0 <= j < |scores| ==> scores[j] <= p.score
    ensures forall j :: 0 <= j < p.index ==> scores[j] < p.score
  {
    var i := ArgMax(scores);
    Prediction(i, classes[i], scores[i])
  }
}
