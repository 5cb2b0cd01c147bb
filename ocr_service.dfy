/** The web service's copy of `extract_text_as_lines`, called by the upload
    endpoint with the threshold taken from the request (default 10). Its
    sort, loop and join are the same statements as the command-line
    program's, so it runs the same model. */
module OcrService {
  import opened Detections
  import OcrDemo

  /** The service's `extract_text_as_lines` after `reader.readtext`: the
      same lines as the command-line copy, none for no detections. */
  method ExtractTextAsLines(detections: seq<Detection>, threshold: int := OcrDemo.DefaultThreshold) returns (lines: seq<string>)
    ensures lines == OcrDemo.ExtractLines(detections, threshold)
    ensures detections == [] ==> lines == []
  {
    lines := OcrDemo.ExtractTextAsLines(detections, threshold);
  }
}
