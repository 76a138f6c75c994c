# BRAC University CSE scrapers: the record logic, in Dafny

This project models the record logic of two extract-transform-load scripts.
`alumni_former_scraping.py` scrapes the alumni list and `etl.py` scrapes the faculty list.
Each script visits the "cards" of a fetched page and probes four text fields per card.
It keeps every card that has a name, in four parallel lists. It then turns those lists into a
table:

1. missing values get the placeholder "N/A";
2. rows without a Name are dropped;
3. exact-duplicate rows are dropped, keeping the first occurrence;
4. one column is cleaned.

Finally it writes the table to `<entity>_data_<YYYYMMDD>.csv` and to a spreadsheet whose
name is derived from that one.

The two scripts share one record model (`Records`, `Dedup`, `Text`, `Paths`) and keep their
differences in per-pipeline modules (`Alumni`, `Faculty`):

- A card is the result of its four selector probes: `Records.Card`, four optional strings.
  The name comes first; the other three follow in the order the script reads them.
- The card loop is the method `Records.ExtractCards`. It keeps a card exactly when
  `if name:` holds, i.e. the name is present and non-empty, and it appends the four probes
  to four lists. Its postcondition ties the lists to `Records.Kept`, the filter of named
  cards. The loop is the same in both scripts (`alumni_former_scraping.py:39-63`,
  `etl.py:39-63`).
- A table is a sequence of `Records.Row`. Each cell is `Option<string>`, so an absent cell
  (Python `None` / pandas NaN) is `None`. Dedup compares rows on all four columns, and
  absent cells compare equal to each other.
- **Alumni** (Name, Graduation_Year, Current_Position, Employer): the last three columns get
  "N/A" when missing or empty. Graduation_Year then becomes the first four consecutive ASCII
  digits of its text, or absent if there are none. So "N/A" becomes absent.
- **Faculty** (Name, Designation, Position, Email): only Email gets "N/A". An absent
  Designation or Position stays absent. Email is then lower-cased and stripped, so a missing
  email comes out as "n/a".
- The spreadsheet name is `output_file.replace('.csv', '.xlsx')`. This is modelled as
  Python's left-to-right, non-overlapping replace of every ".csv".

Three consequences of the code that a reader might not expect:

- In both scripts the dedup runs *before* the column cleanup. The output can therefore
  hold two equal rows, and transforming it a second time can change it.
  - `Alumni.DuplicatesCanSurviveCleanup` and `Faculty.CaseVariantsBothSurvive` exhibit
    output rows that are equal.
  - `Alumni.RerunMergesDuplicates` and `Faculty.RerunMergesDuplicates` show that a second
    run changes such an output.
- In the faculty script only Email gets "N/A" (`etl.py:79-82`). An absent Designation or
  Position stays absent.
- `(\d{4})` takes the first four digits of a longer run: "12345" gives "1234"
  (`Alumni.YearFromLongerRun`).

## Model

| member | source | states |
|---|---|---|
| Records.Kept | alumni_former_scraping.py:56-60 | a card is kept iff it is one of the cards and its name probe is present and non-empty; never more cards than given |
| Records.KeptAppend | alumni_former_scraping.py:56-60 | visiting one more card appends it to the kept cards exactly when it has a non-empty name, and leaves them unchanged otherwise |
| Records.ExtractCards | alumni_former_scraping.py:39-63 | the four returned lists have one length, equal to the number of kept cards; entry k of the four lists is exactly kept card k, in card order; every returned name is non-empty |
| Records.Placeholder | alumni_former_scraping.py:80-82 | a present, non-empty value is kept unchanged; the result is never empty; anything other than "N/A" is the original value |
| Records.DropUnnamed | alumni_former_scraping.py:86 | a row survives iff its Name is present (an empty-string Name survives); never adds rows; a table whose names are all present is unchanged |
| Records.DropUnnamedAppend | alumni_former_scraping.py:86 | one more row is appended to the filtered table exactly when its Name is present, so the survivors keep their order and multiplicity |
| Dedup.Dedup | alumni_former_scraping.py:87 | the result has no two equal rows, holds exactly the values of the input, and is no longer than it |
| Dedup.DedupKeepsFirstOccurrences | alumni_former_scraping.py:87 | the result lists every distinct row once, in the order of first occurrence in the input |
| Dedup.FirstSeenOrderUnique | etl.py:87 | two sequences holding the same values, each in first-occurrence order of the input, are equal |
| Dedup.DedupCharacterized | etl.py:87 | a sequence keeps exactly the first occurrences of the input (same values, first-occurrence order) iff it is the dedup result |
| Dedup.DedupOfDistinct | etl.py:87 | a table without duplicate rows is left unchanged |
| Dedup.DedupIdempotent | etl.py:87 | dropping duplicates twice equals dropping them once |
| Dedup.DedupShrinksDuplicates | etl.py:87 | a table with two equal rows loses at least one row |
| Dedup.DedupRepeatedPair | etl.py:87 | of two equal rows only the first is kept |
| Dedup.DedupDistinctPair | etl.py:87 | two different rows are both kept, in order |
| Dedup.FirstIndex | alumni_former_scraping.py:87 | the first position of a value holds it and no earlier position does |
| Text.LowerChar | etl.py:88 | the result is not an ASCII capital; a non-capital is unchanged; a capital maps to the matching small letter |
| Text.Lower | etl.py:88 | same length; each character is the lower-casing of the input's character at that position (capital to small letter, everything else unchanged); no ASCII capital remains |
| Text.StripLeft | etl.py:88 | the result is a suffix of the input, everything cut is whitespace, and it does not start with whitespace |
| Text.StripRight | etl.py:88 | the result is a prefix of the input, everything cut is whitespace, and it does not end with whitespace |
| Text.Strip | etl.py:88 | neither end of the result is whitespace, and the result is a slice of the input outside which there is only whitespace |
| Text.StripSurrounded | etl.py:88 | stripping text surrounded by whitespace returns exactly that text |
| Text.NormalizeEmail | etl.py:88 | the cleaned email is a slice of the lower-cased input outside which there is only whitespace; it has no ASCII capital and no surrounding whitespace |
| Text.NormalizeEmailIdempotent | etl.py:88 | cleaning an email twice gives the same result as cleaning it once |
| Text.FirstDigitRun | alumni_former_scraping.py:90 | returns the leftmost index at or after the start where four digits begin, or nothing when there is no such index |
| Text.ExtractYear | alumni_former_scraping.py:90 | absent iff the text holds no four consecutive digits; otherwise four digits taken from the leftmost such run |
| Text.ExtractYearAt | alumni_former_scraping.py:90 | a four-digit run with no run before it is the extracted year |
| Text.ExtractYearAfterText | alumni_former_scraping.py:90 | digit-free text followed by four digits yields those digits, whatever follows |
| Paths.ReplaceCsv | alumni_former_scraping.py:105 | the replacement never shortens the name and keeps its first character; with `Paths.CsvInfix` and `Paths.NoCsvUnchanged` its result is fixed for every name |
| Paths.CsvInfix | alumni_former_scraping.py:105 | every ".csv" in a name becomes ".xlsx": a ".csv" between texts `a` and `b` is replaced, and `a` and `b` are rewritten on their own |
| Paths.CsvPrefixFromOriginal | alumni_former_scraping.py:105 | if the rewritten name starts with "csv", so did the original |
| Paths.NoCsvLeft | alumni_former_scraping.py:105 | no ".csv" remains in the rewritten name |
| Paths.NoCsvUnchanged | etl.py:103 | a name in which ".csv" occurs nowhere is left unchanged, so only the ".csv" occurrences are rewritten |
| Paths.CsvSuffixBecomesXlsx | etl.py:103 | rewriting stem + ".csv" rewrites the stem and turns the final ".csv" into ".xlsx" |
| Paths.CsvPath | alumni_former_scraping.py:116 | the CSV name ends in ".csv" |
| Paths.SpreadsheetPath | alumni_former_scraping.py:105 | the spreadsheet name contains no ".csv"; it is the replacement of the CSV name, in which each ".csv" became ".xlsx" (`Paths.CsvInfix`) and nothing else changed (`Paths.NoCsvUnchanged`) |
| Paths.SpreadsheetBesideCsv | etl.py:103 | for an entity and a date without '.', the spreadsheet name is `<entity>_data_<date>.xlsx` |
| Alumni.FrameRow | alumni_former_scraping.py:78-83 | Name is taken as it is; year, position and employer are present, non-empty and equal to their "N/A"-substituted inputs |
| Alumni.Frame | alumni_former_scraping.py:78-83 | one row per list entry, row i built from entry i of each list |
| Alumni.YearCell | alumni_former_scraping.py:90 | an absent cell stays absent; a present cell becomes the year extracted from its text (the leftmost four-digit run), which is four digits and is present whenever the text holds such a run |
| Alumni.CleanYears | alumni_former_scraping.py:90 | row count and order unchanged; Name, Current_Position and Employer unchanged; Graduation_Year replaced by its extracted year |
| Alumni.Transform | alumni_former_scraping.py:72-93 | as many rows as the deduplicated named rows of the frame, so never more than the inputs; every Name present; every year absent or four digits; position and employer present and non-empty |
| Alumni.DistinctNamedRows | alumni_former_scraping.py:86-87 | every row left after `dropna` and `drop_duplicates` has a Name, and keeps the filled-in position and employer it had in the frame |
| Alumni.TransformOfNamed | alumni_former_scraping.py:78-90 | when every name is present the Name filter removes nothing, and the transform is the year cleanup of the deduplicated frame |
| Alumni.ExtractedRowsAllNamed | alumni_former_scraping.py:39-90 | on the extractor's lists the Name filter removes nothing; the transform equals the year cleanup of the first occurrences of the kept cards' rows |
| Alumni.MissingYearBecomesAbsent | alumni_former_scraping.py:80-90 | a missing or empty year ends up absent |
| Alumni.YearFromClassOf | alumni_former_scraping.py:90 | "Class of 2019" gives "2019" |
| Alumni.YearFromLongerRun | alumni_former_scraping.py:90 | "12345" gives "1234" |
| Alumni.YearFromRange | alumni_former_scraping.py:90 | "2015-2019" gives "2015": the first of several years is kept |
| Alumni.YearFromBareYear | alumni_former_scraping.py:90 | "2019" gives "2019" |
| Alumni.NoYearFromPlaceholder | alumni_former_scraping.py:90 | "N/A" gives no year |
| Alumni.DuplicatesCanSurviveCleanup | alumni_former_scraping.py:87-90 | two rows whose different year texts extract to the same year both survive dedup and are equal in the output |
| Alumni.DuplicateYearExample | alumni_former_scraping.py:87-90 | "Class of 2019" and "2019" for the same name give two equal output rows |
| Alumni.RerunMergesDuplicates | alumni_former_scraping.py:86-90 | an output table with two equal named rows loses a row when transformed again |
| Alumni.RerunChangesExample | alumni_former_scraping.py:87-90 | the example's output changes when transformed again |
| Alumni.CsvName | alumni_former_scraping.py:116 | the alumni CSV name ends in ".csv" |
| Alumni.SpreadsheetName | alumni_former_scraping.py:105-116 | for a digits-only date the spreadsheet is `alumni_data_<date>.xlsx` |
| Faculty.FrameRow | etl.py:78-83 | Name, Designation and Position are taken as they are, absent values included; Email is present and equals its "N/A"-substituted input |
| Faculty.Frame | etl.py:78-83 | one row per list entry, row i built from entry i of each list |
| Faculty.EmailCell | etl.py:88 | a cell stays present iff it was; a present email becomes its lower-cased, stripped form, which has no capital and no surrounding whitespace |
| Faculty.CleanEmails | etl.py:88 | row count and order unchanged; Name, Designation and Position unchanged; Email replaced by its cleaned form |
| Faculty.Transform | etl.py:72-91 | as many rows as the deduplicated named rows of the frame, so never more than the inputs; every Name present; every Email present, lower-case and stripped |
| Faculty.DistinctNamedRows | etl.py:86-87 | every row left after `dropna` and `drop_duplicates` has a Name, and keeps the filled-in Email it had in the frame |
| Faculty.TransformOfNamed | etl.py:78-88 | when every name is present the Name filter removes nothing, and the transform is the email cleanup of the deduplicated frame |
| Faculty.ExtractedRowsAllNamed | etl.py:39-88 | on the extractor's lists the Name filter removes nothing; the transform equals the email cleanup of the first occurrences of the kept cards' rows |
| Faculty.PlaceholderLowerCased | etl.py:82-88 | the "N/A" placeholder is output as "n/a" |
| Faculty.MissingEmailCell | etl.py:79-88 | a missing email is output as "n/a" |
| Faculty.NameAndEmailTransform | etl.py:78-88 | a row holding only a name and an email cell comes out as that name, absent Designation and Position, and the cleaned, "N/A"-substituted email |
| Faculty.MissingOptionalFields | etl.py:79-88 | a card with only a name gives a row with absent Designation and Position and Email "n/a" |
| Faculty.EmailExample | etl.py:88 | " John.Doe@EXAMPLE.com " is cleaned to "john.doe@example.com" |
| Faculty.TwoEmailsTransform | etl.py:78-88 | two rows that differ only in a non-empty email both survive dedup, in order, each with its email cleaned |
| Faculty.CaseVariantsBothSurvive | etl.py:87-88 | two rows whose different emails clean to the same text both survive dedup and are equal in the output |
| Faculty.CaseVariantsExample | etl.py:87-88 | "ada@bracu.ac.bd" and "Ada@BRACU.ac.bd" for the same name give two equal output rows |
| Faculty.RerunMergesDuplicates | etl.py:86-88 | an output table with two equal named rows loses a row when transformed again |
| Faculty.RerunChangesExample | etl.py:87-88 | the example's output changes when transformed again |
| Faculty.CsvName | etl.py:114 | the faculty CSV name ends in ".csv" |
| Faculty.SpreadsheetName | etl.py:103-114 | for a digits-only date the spreadsheet is `faculty_data_<date>.xlsx` |

## Left out

- HTTP fetching is network I/O and is not modelled: the User-Agent header, `requests.get` with its 10-second timeout, and `raise_for_status` (`etl.py:21-26`, `alumni_former_scraping.py:21-26`).
- HTML parsing, the card selector and the four `select_one(...).get_text(strip=True)` probes belong to BeautifulSoup and are not modelled. A card is taken as the four probe results it yields.
- Writing the CSV and Excel files (`to_csv`, `to_excel`) is file I/O. Only the spreadsheet's file name is modelled.
- `datetime.now().strftime('%Y%m%d')` is a clock read. The date stamp is a parameter of `CsvName`.
- Logging, and the try/log/re-raise wrappers of every stage and of `main`, have no behaviour beyond passing errors on. They are not modelled.
- `pd.DataFrame` raises when the four lists differ in length. `Alumni.Transform`, `Faculty.Transform` and both `Frame` functions instead require equal lengths. `Records.ExtractCards` proves that the extractor always returns lists of equal length.
- pandas keeps the original index labels after `dropna` and `drop_duplicates`. The index is not modelled, because both scripts write with `index=False`.
- Text.Lower: only ASCII capitals are lower-cased; Python's Unicode case mapping of other characters is not modelled.
- Text.Strip: only the ASCII characters for which `str.isspace()` holds are stripped; other Unicode whitespace is not.
- Text.ExtractYear: `\d` is restricted to the ASCII digits '0'-'9'; other Unicode decimal digits are not matched.
