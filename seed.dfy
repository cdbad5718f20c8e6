/**
 * The shape test of `load_seed` in ingest.py: after the seed file has been
 * parsed, the pipeline goes on only with a non-empty JSON array and stops
 * with an error on anything else.
 */
module Seed {
  import opened Wrappers
  import opened JsonValues

  /** The one error the shape test reports (the printed text is not
      modelled). */
  datatype LoadError = NotNonEmptyArray

  /** `load_seed` after parsing: the array's elements when the value is a
      non-empty array, the fatal error otherwise. */
  function LoadSeed(data: Json): (r: Result<seq<Json>, LoadError>)
    ensures r.Success? <==> data.Arr? && |data.items| > 0
    ensures r.Success? ==> r.value == data.items && |r.value| > 0
  {
    if !data.Arr? || |data.items| == 0 then Failure(NotNonEmptyArray)
    else Success(data.items)
  }
}
