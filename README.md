# py-selenium-scraper, modelled in Dafny

The scraper logs into a course portal and walks the subject pages. It collects each
subject's activities (type, name, period) into a dictionary and exports that
dictionary, among other formats, as an iCalendar (`.ics`) file. While it runs it numbers
its debug screenshots. This project models the parts of that program that are pure data
handling, and proves their properties:

- the date conversion `ddmmyy` to `yyyymmdd`;
- the keyword template substitution;
- the text of the `.ics` file, built from a template and the collected activities;
- the two loops that find the subject links on the course page;
- the activity extraction loop, both in the pipeline class and in the older single-file
  script (`src/main.py`), which reads the parts of an element in a different order;
- the screenshot numbering of both revisions;
- `organize_json` and `terminal_line` from the utilities.

The browser is not modelled. A page is the list of elements the CSS selectors find, and each
element is recorded with the parts it has (`ActivityNode`: heading, name and period, each
`None` when `find_element` raises `NoSuchElementException`). Reading a subject's page is a
function `pageOf` from the subject link to those elements, or `None` when reading raises
`RuntimeError`. A directory listing is a sequence of entries. The profile mode is a
parameter, with the shipped value `"info"` as a named constant. Errors the Python code raises
(`ValueError` from `strptime` and from unpacking a template without the event marker, `KeyError`, `IndexError` or `ValueError` from `str.format`, `KeyError` from the sort key,
`IndexError` on a period without ` - `, `ValueError` from `terminal_line`) become `Err`
values of `Results.Result`.

Python's data structures are modelled explicitly:

- a `dict` is an insertion-ordered list of pairs (`OrderedDict`); assigning an existing key
  keeps its place;
- `str.strip`, `in`, `split`, `join`, `replace`, `endswith`, `isdigit`, `int`, `str(n)`
  and `*` are functions in `Text`;
- `str.format(**kwargs)` with named fields and `{{`/`}}` escapes is `Template.Format`;
- Python's `<` on strings is lexicographic code-point order (`Utils.Less`);
- `list.sort(key=...)` is a stable insertion sort (`Utils.SortBy`), proved sorted, a
  permutation and stable.

Loops take their imperative form. Each loop is a `method` proved equal to a specification
function, and the properties are proved as lemmas about those functions.

## Model

| member | source | states |
|---|---|---|
| Dates.ConvertIcsDate | src/pipeline/selenium_scraper_pipeline.py:70-72 | succeeds exactly on six ASCII digits that form a real day, month and two-digit year (years 69-99 in the 1900s, 00-68 in the 2000s); the result is the four-digit year, month, day; otherwise the error names the input |
| Dates.FormatFields | src/pipeline/selenium_scraper_pipeline.py:72 | formatting year, month and day with `%Y%m%d` gives the century digits followed by the year, month and day digits of the input |
| Dates.Pad2OfDigits | src/pipeline/selenium_scraper_pipeline.py:72 | two-digit zero padding of a two-digit number gives back its digits |
| Dates.ConvertedIsIcsDate | src/pipeline/selenium_scraper_pipeline.py:70-72 | a converted date is eight digits whose year, month and day fields are the parsed ones |
| Dates.ConvertInjective | src/pipeline/selenium_scraper_pipeline.py:70-72 | two accepted inputs convert to the same date exactly when they are equal |
| Dates.ConversionExamples | src/pipeline/selenium_scraper_pipeline.py:70-72 | `010124` gives `20240101`, `311223` gives `20231231` |
| Dates.PivotExamples | src/pipeline/selenium_scraper_pipeline.py:70-72 | `010169` gives `19690101`; `290200` gives `20000229` (2000 is a leap year) |
| Dates.RejectExamples | src/pipeline/selenium_scraper_pipeline.py:70-72 | 29 February 1969, 31 April, month 13, and an input that still has slashes are rejected |
| Template.Format | src/pipeline/selenium_scraper_pipeline.py:322-326 | `template.format(**kwargs)`: an error is a malformed brace or a field name that was not supplied; what it computes is stated by `FormatOkIff`, `FormatField`, `FormatUnknownField`, `FormatEscapes` and `FormatLiteralPrefix` |
| Template.Prepend | src/pipeline/selenium_scraper_pipeline.py:326 | adding literal text in front of a formatting result keeps its success or its error |
| Template.FormatOkIff | src/pipeline/selenium_scraper_pipeline.py:322-326 | formatting succeeds exactly when the braces are well formed and every named field is a supplied keyword |
| Template.FormatOkSameKeys | src/pipeline/selenium_scraper_pipeline.py:322-326 | whether formatting succeeds depends only on which keywords are supplied, not on their values |
| Template.FormatLiteralPrefix | src/pipeline/selenium_scraper_pipeline.py:322-326 | a prefix without braces passes through unchanged in front of the formatted rest |
| Template.FormatLiteral | src/pipeline/selenium_scraper_pipeline.py:322-326 | text without braces formats to itself |
| Template.FormatField | src/pipeline/selenium_scraper_pipeline.py:326 | a field `{n}` whose name is supplied is replaced by the supplied value, and the rest of the template is formatted after it |
| Template.FormatUnknownField | src/pipeline/selenium_scraper_pipeline.py:326 | a field whose name is not supplied stops formatting with an error naming the field |
| Template.FormatEscapes | src/pipeline/selenium_scraper_pipeline.py:326 | `{{` and `}}` render as single literal braces |
| Calendar.IcsDocument | src/pipeline/selenium_scraper_pipeline.py:339-383 | the text `_generate_ics_file` writes: a template without the event marker is a missing-marker error, and a produced document ends with `END:VCALENDAR` and a newline; the rest of its contract is carried by `IcsDocumentOk`, `IcsDocumentFraming`, `EventsOfCount` and `ActivityEventsContent` |
| Calendar.GenerateIcs | src/pipeline/selenium_scraper_pipeline.py:339-383 | the generator's statements compute the document `IcsDocument` defines, or its first error |
| Calendar.CollectEvents | src/pipeline/selenium_scraper_pipeline.py:351-381 | the nested loops over subjects and their activities give the events of all activities in dictionary order, or the first error |
| Calendar.CollectSubject | src/pipeline/selenium_scraper_pipeline.py:355-381 | the inner loop over one subject's activities appends that subject's events to those already built, or stops at the first error |
| Calendar.MakeEvents | src/pipeline/selenium_scraper_pipeline.py:356-381 | one activity's statements give the events `ActivityEvents` defines, with the errors in source order (start date, missing end, end date, template) |
| Calendar.SplitTemplateSpec | src/pipeline/selenium_scraper_pipeline.py:339-343 | the stripped template splits exactly when it contains `BEGIN:VEVENT`; header plus event template is the stripped template; the event template starts with the marker; the header does not contain it; otherwise the error is a missing marker |
| Calendar.ActivityEventsSpec | src/pipeline/selenium_scraper_pipeline.py:356-381 | an activity renders exactly when both dates of its period convert and the event template formats; it gives one event when start and end dates are equal and two otherwise |
| Calendar.ActivityEventsContent | src/pipeline/selenium_scraper_pipeline.py:357-381 | the first event is the template rendered with type "Início", the activity name, the converted start date and the subject; a second event exists exactly when the converted dates differ, and it is the rendering with "Fim" and the converted end date |
| Calendar.NoSeparatorAborts | src/pipeline/selenium_scraper_pipeline.py:357-359 | a period with a valid start and no ` - ` aborts with an error naming the period |
| Calendar.CollectOk | src/pipeline/selenium_scraper_pipeline.py:354-381 | collecting events succeeds exactly when every item renders |
| Calendar.EventsOfOk | src/pipeline/selenium_scraper_pipeline.py:354-381 | the events of a list of activities exist exactly when every activity renders |
| Calendar.EventsOfCount | src/pipeline/selenium_scraper_pipeline.py:361-381 | the number of events is the sum over the activities of one (same day) or two |
| Calendar.ActivityEventsStartWithMarker | src/pipeline/selenium_scraper_pipeline.py:342-343 | every event of one activity starts with `BEGIN:VEVENT` |
| Calendar.EventsStartWithMarker | src/pipeline/selenium_scraper_pipeline.py:342-383 | every event of the document starts with `BEGIN:VEVENT` |
| Calendar.IcsDocumentOk | src/pipeline/selenium_scraper_pipeline.py:339-383 | the document is produced exactly when the template has the marker, the header formats with the course fields, and every activity renders |
| Calendar.IcsDocumentFraming | src/pipeline/selenium_scraper_pipeline.py:383 | a produced document starts with the rendered header and a newline and ends with `END:VCALENDAR` and a newline |
| Calendar.DocumentFraming | src/pipeline/selenium_scraper_pipeline.py:383 | the assembled text starts with the header and a newline and ends with the closing line |
| Calendar.CollectStep | src/pipeline/selenium_scraper_pipeline.py:362-381 | one more item either appends its events or turns the result into its error |
| Calendar.CollectErrPrefix | src/pipeline/selenium_scraper_pipeline.py:354-381 | once an error is raised, later items do not change it |
| Calendar.PairsSnoc | src/pipeline/selenium_scraper_pipeline.py:354-355 | the (subject, activity) pairs of one more dictionary entry are those of the entry's activities appended |
| Subjects.FindSubjects | src/pipeline/selenium_scraper_pipeline.py:190-204 | the two loops return `SubjectsOf` of the elements |
| Subjects.SubjectsOfMember | src/main.py:180-193 | a subject is returned exactly when some element has a non-empty `href` and `title`, the subject's name is that stripped title, its link is that `href`, and the link is not the student's own index page |
| Subjects.SubjectsOfLinks | src/pipeline/selenium_scraper_pipeline.py:192-204 | every returned link is non-empty and differs from the student's own index page link |
| Subjects.SubjectsOfConcat | src/pipeline/selenium_scraper_pipeline.py:190-204 | subjects keep page order: the result on a concatenation is the concatenation of the results |
| Pipeline.ExtractOne | src/pipeline/selenium_scraper_pipeline.py:264-296 | one element's statements give the activity `Extract` defines, or nothing |
| Pipeline.ExtractActivities | src/pipeline/selenium_scraper_pipeline.py:262-296 | the inner loop builds `ActivitiesOf` the page's elements |
| Pipeline.FetchSubjectsInformation | src/pipeline/selenium_scraper_pipeline.py:248-309 | the outer loop builds `Information`: one dictionary assignment per subject whose page is read, in subject order |
| Pipeline.ActivitiesOfMember | src/pipeline/selenium_scraper_pipeline.py:263-294 | an activity is kept exactly when some element has all three parts, its type (first line of the stripped heading) contains no ignored entry, and the record is the stripped name, that type and the stripped period |
| Pipeline.ActivitiesOfClean | src/pipeline/selenium_scraper_pipeline.py:266-285 | every kept activity's type contains no ignored entry and no line break; name and period have no surrounding whitespace |
| Pipeline.SkippedNode | src/pipeline/selenium_scraper_pipeline.py:274-296 | an element that is missing a part or has an ignored type contributes nothing and does not stop the loop |
| Pipeline.ActivitiesOfConcat | src/pipeline/selenium_scraper_pipeline.py:263-294 | activities keep element order |
| Pipeline.NothingIgnored | src/pipeline/selenium_scraper_pipeline.py:263-294 | with an empty ignore list and all parts present, every element gives one activity |
| Pages.AnyInIff | src/pipeline/selenium_scraper_pipeline.py:275 | the `any(... in ...)` test holds exactly when some ignored entry occurs in the text |
| Pages.InformationSnocRead | src/pipeline/selenium_scraper_pipeline.py:298-302 | a subject whose page is read assigns its link and activities under its name |
| Pages.InformationSnocUnread | src/pipeline/selenium_scraper_pipeline.py:304-307 | a subject whose page raises `RuntimeError` leaves the dictionary unchanged |
| Pages.InformationLastWins | src/pipeline/selenium_scraper_pipeline.py:299-302 | for repeated subject names, the last read subject's entry is the one kept |
| Pages.InformationAbsent | src/pipeline/selenium_scraper_pipeline.py:304-307 | a name none of whose pages can be read is not a key of the result |
| Pages.InformationDistinct | src/pipeline/selenium_scraper_pipeline.py:248-309 | with distinct names and all pages readable, the result has one entry per subject, in subject order |
| Pages.EntriesWithoutName | src/pipeline/selenium_scraper_pipeline.py:304-307 | no entry is produced for a name none of whose pages can be read |
| Legacy.LegacyExtractOne | src/main.py:268-286 | one element's statements give the activity `LegacyExtract` defines, or nothing |
| Legacy.ExtractLegacyActivities | src/main.py:267-286 | the older inner loop builds `LegacyActivitiesOf` the page's elements |
| Legacy.CaptureSubjectsInformation | src/main.py:255-291 | the older outer loop builds `Information` with the older extraction |
| Legacy.LegacyActivitiesOfMember | src/main.py:267-286 | an activity is kept exactly when some element has a name and a period, the stripped name contains no ignored entry, and the record is the stripped name and period |
| Legacy.LegacyActivitiesOfClean | src/main.py:269-280 | kept names contain no ignored entry; names and periods have no surrounding whitespace |
| Legacy.LegacySkippedNode | src/main.py:273-286 | an element without a name, without a period, or with an ignored name contributes nothing and does not stop the loop |
| Legacy.LegacyActivitiesOfConcat | src/main.py:267-286 | activities keep element order |
| Legacy.RevisionsAgree | src/main.py:267-286 | with nothing ignored and every part present, both revisions keep every element and agree on names and periods position by position |
| Legacy.LegacyAll | src/main.py:267-286 | with nothing ignored, every element with a name and a period is kept |
| Legacy.SaveScreenshotName | src/main.py:61-71 | the older `save_screenshot` loops compute `LegacyScreenshotName` |
| Legacy.LegacyScreenshotNameShape | src/main.py:69-71 | the older name carries the next tag and ends with the image suffix |
| Legacy.ListingsAgreeOnFiles | src/main.py:62-64 | on a directory holding only regular files, the older listing test and the pipeline's agree |
| Screenshots.SaveScreenshot | src/pipeline/selenium_scraper_pipeline.py:98-115 | computes `SavedName`: nothing outside the debug profile mode, else the name built from the listing's next tag |
| Screenshots.NextTag | src/pipeline/selenium_scraper_pipeline.py:108-114 | the tag loop and the `max` step compute `NextTagOf` of the listed tags |
| Screenshots.Max | src/pipeline/selenium_scraper_pipeline.py:114 | the maximum is an element and is at least every element |
| Screenshots.NextTagOf | src/pipeline/selenium_scraper_pipeline.py:114 | the new tag is positive, above every existing tag, and is 1 or one more than an existing tag |
| Screenshots.SavedNameShape | src/pipeline/selenium_scraper_pipeline.py:98-115 | a name is produced exactly in debug mode; it is `{tag}_{filename}.{format}`, carries that tag and ends with the suffix |
| Screenshots.ShippedModeSavesNothing | src/pipeline/selenium_scraper_pipeline.py:98-99 | with the shipped profile mode nothing is saved |
| Screenshots.TagForAbove | src/pipeline/selenium_scraper_pipeline.py:102-114 | the new tag is above the tag of every tagged regular image file in the directory |
| Screenshots.NextAfterSave | src/pipeline/selenium_scraper_pipeline.py:109-115 | listing the newly saved file moves the next tag on by exactly one |
| Screenshots.FileNameCarriesTag | src/pipeline/selenium_scraper_pipeline.py:110-115 | a saved name is counted again: its tag is read back and its suffix matches |
| Screenshots.TagOfDigitsPrefix | src/pipeline/selenium_scraper_pipeline.py:110-111 | a name starting with digits and `_` carries the value of those digits as its tag |
| Screenshots.UncountedEntry | src/pipeline/selenium_scraper_pipeline.py:103-111 | an entry that is not a regular file, lacks the suffix or carries no tag does not change the new tag |
| Screenshots.UncountedName | src/main.py:62-68 | in the older script, a name that lacks the suffix or carries no tag does not change the new tag |
| Utils.OrganizeJson | src/core/utils.py:95-97 | `organize_json` on one file's object: it succeeds exactly when every record has `key_name`, else a missing-key error; the ordering and renumbering are stated by `OrganizeJsonSpec` and `OrganizeJsonOrdered` |
| Utils.OrganizeJsonSpec | src/core/utils.py:95-97 | reorganizing succeeds exactly when every record has `key_name`, else it is a missing-key error; the result has one entry per record with keys `"1"` to `"n"` in order; its records are sorted by `key_name`, a permutation of the input, and records with equal keys keep their order |
| Utils.OrganizeJsonOrdered | src/core/utils.py:95-97 | records already in key order are renumbered in place without moving |
| Utils.RenumberSpec | src/core/utils.py:97 | `enumerate` renumbering gives entry `i` the key `str(i + 1)` and the `i`th record |
| Utils.SortBy | src/core/utils.py:96 | `list.sort(key=...)` keeps the number of items; order, permutation and stability are stated by `SortBySpec`, `SortByStable` and `SortBySorted` |
| Utils.SortBySpec | src/core/utils.py:96 | the sort gives a non-decreasing order by key, and a permutation of its input |
| Utils.SortByOrdered | src/core/utils.py:96 | the sort gives a non-decreasing order by key |
| Utils.SortByPermutes | src/core/utils.py:96 | the sort gives a permutation of its input |
| Utils.SortByStable | src/core/utils.py:96 | items with equal keys keep their relative order |
| Utils.SortBySorted | src/core/utils.py:96 | an already sorted list is unchanged |
| Utils.InsertSorted | src/core/utils.py:96 | inserting into a sorted list keeps it sorted |
| Utils.InsertPermutes | src/core/utils.py:96 | inserting adds exactly the inserted item |
| Utils.InsertWithKey | src/core/utils.py:96 | inserting places the item after every item with the same key |
| Utils.LessIrreflexive | src/core/utils.py:96 | string `<` is irreflexive |
| Utils.LessTotal | src/core/utils.py:96 | any two different strings are ordered one way or the other |
| Utils.LessAsymmetric | src/core/utils.py:96 | string `<` is asymmetric |
| Utils.LessTransitive | src/core/utils.py:96 | string `<` is transitive |
| Utils.TerminalLine | src/core/utils.py:123-126 | `terminal_line`: a line exactly for a positive width, else an error naming the width; the line is width times as long as the character string; its contents are stated by `TerminalLineSpec` |
| Utils.TerminalLineSpec | src/core/utils.py:124-126 | the line is produced exactly for a positive width, else the error names the width; it has width times the character string's length, position `i` holds `char[i % len(char)]`, and for one character every position is that character |
| Text.RepeatIndex | src/core/utils.py:126 | position `i` of `s * n` holds `s[i % len(s)]` |
| Utils.DefaultTerminalLine | src/core/utils.py:123-126 | the default call gives 79 dashes |
| Text.StripSpec | src/pipeline/selenium_scraper_pipeline.py:270 | `strip` removes exactly the leading and trailing whitespace and keeps the middle |
| Text.StripIdempotent | src/pipeline/selenium_scraper_pipeline.py:270 | stripping twice is stripping once |
| Text.SplitOnce | src/pipeline/selenium_scraper_pipeline.py:342 | `split(sep, 1)` gives two parts, so the unpacking into `header, event_template` succeeds, exactly when the separator occurs; the two parts joined by the separator give back the text |
| Text.SplitOnceFirst | src/pipeline/selenium_scraper_pipeline.py:342 | the split is at the first occurrence |
| Text.JoinSplit | src/pipeline/selenium_scraper_pipeline.py:357 | joining the parts of a split with the separator gives back the text |
| Text.SplitPartsFree | src/pipeline/selenium_scraper_pipeline.py:271 | no part of a split contains the separator |
| Text.SplitHasSecondPart | src/pipeline/selenium_scraper_pipeline.py:357-359 | a split has a second part exactly when the separator occurs |
| Text.Remove | src/pipeline/selenium_scraper_pipeline.py:358-359 | `replace("/", "")` leaves no slash and every other character |
| Text.DigitsValueOfNatToString | src/pipeline/selenium_scraper_pipeline.py:111-114 | `int(str(n)) == n` |
| Text.NatToStringInjective | src/core/utils.py:97 | different numbers have different decimal strings |
| OrderedDict.PutGet | src/pipeline/selenium_scraper_pipeline.py:299 | after an assignment the key maps to the new value and every other key is unchanged |
| OrderedDict.PutKeys | src/pipeline/selenium_scraper_pipeline.py:299 | an assignment keeps the key order; a new key is appended, an existing one keeps its place |
| OrderedDict.PutDistinct | src/pipeline/selenium_scraper_pipeline.py:299 | keys stay distinct |
| OrderedDict.AssignLastWins | src/core/utils.py:97 | in a dictionary built from pairs, a key holds the value of its last pair |
| OrderedDict.AssignDistinct | src/core/utils.py:97 | pairs with distinct keys build a dictionary holding exactly those pairs in order |
| Sequences.FilterMapMember | src/pipeline/selenium_scraper_pipeline.py:190-198 | an item is in a filter-and-map result exactly when some input maps to it |
| Sequences.FilterMapConcat | src/pipeline/selenium_scraper_pipeline.py:201-204 | filter-and-map distributes over concatenation |

## Left out

- The browser, login, navigation, waits and the screenshot file itself are not modelled. Pages are the elements their CSS selectors find, given as data.
- File I/O is left out: reading the template, writing the `.ics`, JSON and YAML files, and reading the configuration. So are logging, the clock and `execution_time`.
- `config` lookups (`nome_aluno`, `semestre`, `nome_curso`, the `ics_content` key) are taken as present. A missing configuration key raises `KeyError` after the template is split, before the header is formatted.
- `RuntimeError` while reading a subject page appears only as an unreadable page (`pageOf` gives `None`). Other exceptions (`TimeoutException`, `WebDriverException`) are not modelled.
- The order of `Path.iterdir` and `os.listdir` is not known. The listing is a sequence parameter in whatever order the system gives.
- The profile mode is a parameter, and the shipped `PROFILE_MODE` is the constant `Screenshots.ProfileMode`.
- Dates.ConvertIcsDate: `strptime("%d%m%y")` also accepts inputs the model rejects. It takes a one-digit day or month (`"1224"` is 1 February 2024) and a space followed by a one-digit day (`" 1224"`). Its `\d` also matches non-ASCII decimal digits. The model accepts only exactly six ASCII digits, which is what the scraped `dd/mm/yy` periods give after the slashes are removed. The time zone attached by `replace(tzinfo=BRT)` never shows in the `%Y%m%d` output, so it is left out.
- Template.Format: only named fields and `{{`/`}}` escapes are modelled. Positional fields, attribute and index lookups, conversions (`!r`) and format specs (`:>10`) are not. An unknown field, or a malformed brace, is an error.
- Template.Format: the model does not tell apart the exception classes `str.format` raises. An unknown name (Python's `KeyError`) is `UnknownPlaceholder`; an unpaired brace (Python's `ValueError`) is `MalformedTemplate`. The empty field `{}` (Python's `IndexError`) is `UnknownPlaceholder("")`. A `{` inside a field name, as in `{a{b}`, gives `UnknownPlaceholder("a{b")`, where Python raises `ValueError`.
- `_ensure_string`'s `str(template)` branch for a non-string template is not modelled, because the model's template is always a string.
- Malformed periods: the code raises on the first malformed period and produces no file, and the model follows it. The error is a missing ` - ` or a date that does not parse. The model does not skip a malformed period, because the code does not.
- Unicode: `str.strip` removes the characters `str.isspace` accepts, and the model lists them. `str.isdigit` is modelled on ASCII digits only. In the source, an image file named `²_x.png` passes `isdigit()`, and `int("²")` then raises `ValueError`, so the screenshot step crashes. In the model such a name carries no tag, and the crash is not modelled. String order is code-point order, as in Python.
- `organize_json` loops over several files, catches `RuntimeError` per file and rewrites each file with `json.dump`. Only the transformation of one file's dictionary is modelled. Records are maps from strings to strings.
- `list.sort` is CPython's Timsort. The model is a stable insertion sort on values, and every property Python promises (sorted by key, permutation, stability) is proved about it. The in-place update of the Python list is not modelled. As in CPython, all keys are computed first, so one record without `key_name` fails the whole call.
- `terminal_line` prints the line. The model returns the printed text without the trailing newline `print` adds.
- `main.py:388`, the caller of `capturar_informacoes_disciplinas`, wraps the configured ignore list in another list. The model takes the ignore list as the called function's parameter, the list of entries that is iterated. The caller is not part of this model.
- The per-subject re-visit in debug mode (`acessar_disciplinas`) and the export functions around `_generate_ics_file` are not part of this model.
