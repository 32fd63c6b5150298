/** Detection assembly and class-name resolution of src/object_detector.cpp.
    The OpenCV network is outside the model: what `model_->detect` returns
    (three parallel arrays) and what the class-name file holds are inputs. */
module ObjectDetection {
  import opened Wrappers

  /** A C `int`. */
  type Int32 = x: int | -0x8000_0000 <= x < 0x8000_0000

  /** The bit pattern of a C `float`: confidences are copied, never
      computed with, so their bits are all the model needs. */
  type Float32 = bv32

  /** `cv::Rect`. */
  datatype Rect = Rect(x: Int32, y: Int32, width: Int32, height: Int32)

  /** `Detection`. */
  datatype Detection = Detection(classId: Int32, className: string, box: Rect, confidence: Float32)

  /** The `cv::dnn::DetectionModel` held by `model_`, known by the files it
      was loaded from. */
  datatype DetectionModel = DetectionModel(weights: string, config: string)

  /** `ObjectDetector`: the caps it was told about, whether the model is
      loaded, the loaded model (`None` for an empty `model_`), and the
      class names read so far. */
  class ObjectDetector {
    var width: Int32
    var height: Int32
    var initialized: bool
    var model: Option<DetectionModel>
    var classNames: seq<string>

    /** The flag is set exactly when a model has been created. */
    ghost predicate Valid()
      reads this
    {
      initialized <==> model.Some?
    }

    /** Width and height start at -1 and the detector is not initialized,
        so `Initialize` fails until caps have set both. */
    constructor ()
      ensures Valid()
      ensures width == -1 && height == -1
      ensures !initialized && model == None && classNames == []
    {
      width, height := -1, -1;
      initialized := false;
      model := None;
      classNames := [];
    }

    /** `initialize(config, weights, class_names)`. A null path is `None`;
        `classNameFile` is what opening the class-name file yields: `None`
        when it cannot be opened, otherwise its lines. Success needs three
        paths, positive caps and a readable file; the lines are appended
        to the names already held (the vector is never cleared). The flag
        only ever goes from false to true. */
    method Initialize(config: Option<string>, weights: Option<string>, classNamesPath: Option<string>,
                      classNameFile: Option<seq<string>>) returns (success: bool)
      requires Valid()
      modifies this
      ensures Valid()
      ensures success <==> config.Some? && weights.Some? && classNamesPath.Some?
                           && width > 0 && height > 0 && classNameFile.Some?
      ensures success ==> initialized && classNames == old(classNames) + classNameFile.value
      ensures success ==> model == Some(DetectionModel(weights.value, config.value))
      ensures !success ==> initialized == old(initialized) && model == old(model) && classNames == old(classNames)
      ensures width == old(width) && height == old(height)
    {
      success := false;
      if config.Some? && weights.Some? && classNamesPath.Some? && width > 0 && height > 0 {
        if classNameFile.Some? {
          classNames := classNames + classNameFile.value;
          model := Some(DetectionModel(weights.value, config.value));
          initialized := true;
          success := true;
        }
      }
    }

    /** `is_initialized()`: true exactly when a model is loaded, so the
        `model_->detect` of `get_objects` never meets an empty `model_`. */
    predicate IsInitialized(): (r: bool)
      reads this
      requires Valid()
      ensures r <==> model.Some?
    {
      initialized
    }

    /** `get_objects(image, detections, annotate)`, with the detector's
        output given as `classIds`, `confidences` and `boxes`. Not
        initialized: FALSE and `detections` untouched. Otherwise TRUE and
        one Detection per result appended in index order: the id, box and
        confidence at that index, and the name `classNames[id - 1]` when
        that index exists, the empty string otherwise. */
    method GetObjects(classIds: seq<Int32>, confidences: seq<Float32>, boxes: seq<Rect>,
                      detections: seq<Detection>) returns (success: bool, result: seq<Detection>)
      requires Valid()
      requires |confidences| == |classIds| && |boxes| == |classIds|
      ensures success == initialized
      ensures !success ==> result == detections
      ensures success ==> |result| == |detections| + |classIds| && result[..|detections|] == detections
      ensures success ==> forall i :: 0 <= i < |classIds| ==>
        && result[|detections| + i].classId == classIds[i]
        && result[|detections| + i].box == boxes[i]
        && result[|detections| + i].confidence == confidences[i]
      ensures success ==> forall i :: 0 <= i < |classIds| ==>
        result[|detections| + i].className ==
          if 1 <= classIds[i] <= |classNames| then classNames[classIds[i] - 1] else ""
    {
      success := false;
      result := detections;
      if IsInitialized() {
        var index := 0;
        while index < |classIds|
          invariant 0 <= index <= |classIds|
          invariant |result| == |detections| + index && result[..|detections|] == detections
          invariant forall i :: 0 <= i < index ==>
            && result[|detections| + i].classId == classIds[i]
            && result[|detections| + i].box == boxes[i]
            && result[|detections| + i].confidence == confidences[i]
          invariant forall i :: 0 <= i < index ==>
            result[|detections| + i].className ==
              if 1 <= classIds[i] <= |classNames| then classNames[classIds[i] - 1] else ""
        {
          var classId := classIds[index];
          var className := "";
          var classNameIndex := classId as int - 1;
          if 0 <= classNameIndex < |classNames| {
            className := classNames[classNameIndex];
          }
          result := result + [Detection(classId, className, boxes[index], confidences[index])];
          index := index + 1;
        }
        success := true;
      }
    }
  }

  /** A detector fresh from its constructor refuses to initialize,
      whatever paths and class-name file it is given: no caps yet. */
  method InitializeBeforeCaps(config: Option<string>, weights: Option<string>, classNamesPath: Option<string>,
                              classNameFile: Option<seq<string>>) returns (success: bool)
    ensures !success
  {
    var detector := new ObjectDetector();
    success := detector.Initialize(config, weights, classNamesPath, classNameFile);
  }
}
