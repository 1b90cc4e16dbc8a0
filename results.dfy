/** Option, Result and the errors the scraper's data-shaping code can raise. */
module Results {

  datatype Option<+T> = None | Some(value: T)

  /** The exceptions of the Python code, one constructor per distinct cause. */
  datatype Error =
    | DateParse(text: string)          // strptime: not a ddmmyy calendar date
    | UnknownPlaceholder(name: string) // str.format: KeyError for a missing named field
    | MalformedTemplate                // str.format: a single '{' or '}'
    | MissingEventMarker               // the ICS template has no BEGIN:VEVENT to split at
    | PeriodWithoutSeparator(period: string) // periodo.split(" - ")[1]: IndexError
    | MissingKeyName                   // item["key_name"]: KeyError while sorting
    | NonPositiveWidth(value: int)     // terminal_line: ValueError

  datatype Result<+T> = Ok(value: T) | Err(error: Error)
}
