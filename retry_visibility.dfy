/** RetryVisibility: the value converter that shows a report's retry button
    only for a "Failed" status. */
module RetryVisibility {
  import opened Wrappers
  import opened Metadata

  datatype Visibility = Visible | Hidden | Collapsed

  /** Convert: Visible exactly for the string "Failed"; Collapsed for null and
      for every other status. Hidden is never produced. */
  function Convert(value: Option<string>): (v: Visibility)
    ensures v == Visible <==> value == Some(Failed)
    ensures v != Visible ==> v == Collapsed
  {
    if value.Some? && value.value == Failed then Visible else Collapsed
  }

  datatype ConverterError = NotImplemented

  /** ConvertBack always throws NotImplementedException. */
  function ConvertBack(v: Visibility): (r: Result<Option<string>, ConverterError>)
    ensures r == Err(NotImplemented)
  {
    Err(NotImplemented)
  }
}
