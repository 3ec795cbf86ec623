/** The values a prediction produces and the record the application keeps of the
    latest one. The classifier itself is outside the model: what it yields for an
    image is a `Diagnosis`, taken as given. */
module Prediction {

  /** The two classes of the model, in the order of `class_names`. */
  datatype Label = Normal | Pneumonia

  /** The class name shown to the user and carried in report links. */
  function LabelName(l: Label): (r: string)
    ensures r != [] && '/' !in r
    ensures (r == "PNEUMONIA") <==> l == Pneumonia
  {
    match l
    case Normal => "NORMAL"
    case Pneumonia => "PNEUMONIA"
  }

  /** What the predictor returns for one image: the label and the confidence
      percentage, kept as the text Python renders for it (for example "87.5"). */
  datatype Diagnosis = Diagnosis(result: Label, confidence: string)

  /** The contents of the `latest_prediction` dictionary after an upload. */
  datatype Record = Record(
    patientName: string,
    age: string,
    gender: string,
    filename: string,
    diagnosis: Diagnosis)
}
