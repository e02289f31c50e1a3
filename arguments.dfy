/** The check applied to the `--volume` command-line argument once it has
    been read as an integer. */
module Arguments {
  import opened Wrappers

  const VolumeRangeError: string := "Volume must be in [0...100] range."

  /** Accepts a volume from 0 to 100 inclusive and rejects any other value
      with the range message. */
  function Volume(value: int): (r: Result<int, string>)
    ensures r.Success? <==> 0 <= value <= 100
    ensures r.Success? ==> r.value == value
    ensures r.Failure? ==> r.error == VolumeRangeError
  {
    if value < 0 || value > 100 then Failure(VolumeRangeError) else Success(value)
  }

  /** The boundary values are accepted and their neighbours outside are not. */
  lemma VolumeBounds()
    ensures Volume(0) == Success(0) && Volume(100) == Success(100)
    ensures Volume(-1).Failure? && Volume(101).Failure?
  {
  }
}
