# Quran dataset maintenance scripts, modelled in Dafny

The repository's logic lives in two one-off Python scripts. Each loads the
Quran text dataset (`client/data/quran-uthmani.json`), patches it in memory
and writes it back.

- `fix_hizb.py` treats the file as a flat list of verse records
  (`number`, `numberInSurah`, `hizbQuarter`, ...). A diagnostic loop prints
  verses of Al-Baqarah (global verses 8..293) that have hizb quarter 3 and
  stops at the first one whose ayah number is below 50. A correction loop
  then sets `hizbQuarter` to 3 on every record numbered 33..50, which is
  Al-Baqarah ayahs 26..43. Verses from 51 on are left alone on purpose: the
  script only fixes the start of that quarter.
- `fix_correct_file.py` treats the file as `data.surahs[*].ayahs[*].text`.
  In every surah except number 1, any ayah text that contains the basmala
  becomes `text.replace(basmala, '').strip()`.

The files of the model:

- `json.dfy` (module `Json`): `Option`, `Value` (a JSON value) and `Fields`
  (the keys of a record that no script touches, kept so that "nothing else
  changes" can be stated; by convention they exclude the keys that have their
  own typed field).
- `seqs.dfy` (module `Seqs`): `MapSeq`, the element-by-element traversal
  that both scripts' loops perform.
- `pystr.dfy` (module `PyStr`): Python's `p in s` (`Contains`),
  `s.replace(p, '')` (`RemoveAll`, left to right and non-overlapping),
  `s.strip()` (`Strip`), and `str.isspace` written out as its 29 code points.
- `fix_hizb.dfy` (module `HizbFix`): the verse record, both loops as
  methods over an `array` of records, the functions that specify them and
  the lemmas about those functions.
- `fix_correct_file.dfy` (module `BasmalaFix`): ayah and surah records, the
  nested loops as a method over an `array` of surahs, and the lemmas.

Absent keys follow the scripts' `.get` defaults: a missing `number` or
`numberInSurah` reads as 0. `hizbQuarter` holds any JSON value, `None` when
the key is missing; setting it to 3 adds the key when it was missing. The
diagnostic's printed lines are modelled as the list positions of the verses
printed, in order. Everything it prints (number and ayah number) can be read
from those positions.

The text correction is not idempotent in general: deleting an occurrence
can splice the text around it into a new basmala, which a second run
deletes. `BasmalaFix.FixTextNotIdempotent` exhibits such a text;
idempotence is proved under the hypothesis that no basmala remains after
the deletion.

## Model

| member | source | states |
|---|---|---|
| `Seqs.MapSeq` | fix_hizb.py:22-26 | the loops visit every record once, in order: the result has the input's length, and position i holds the per-record rule applied to input position i |
| `Seqs.MapSeqIdempotent` | fix_hizb.py:22-26 | a whole-list pass is idempotent when the per-record rule is idempotent on every record |
| `PyStr.ContainsIff` | fix_correct_file.py:11 | `p in s` holds exactly when `p` is a prefix of some suffix of `s` |
| `PyStr.ContainsExtendRight` | fix_correct_file.py:11 | an occurrence survives appending a character |
| `PyStr.RemoveAllAbsent` | fix_correct_file.py:12 | `replace(p, '')` returns a string without an occurrence of `p` unchanged |
| `PyStr.RemoveAllShrinks` | fix_correct_file.py:12 | `replace(p, '')` never lengthens, and removes at least `|p|` characters when a non-empty `p` occurs |
| `PyStr.RemoveAllLeading` | fix_correct_file.py:12 | a leading occurrence is deleted and the scan resumes right after it |
| `PyStr.StripLeftSpec` | fix_correct_file.py:12 | `lstrip` removes exactly the leading whitespace run, leaving a string that starts with a non-space or is empty |
| `PyStr.StripRightSpec` | fix_correct_file.py:12 | `rstrip` removes exactly the trailing whitespace run, leaving a string that ends with a non-space or is empty |
| `PyStr.RemoveAllSelf` | fix_correct_file.py:12 | deleting a non-empty string from itself leaves the empty string |
| `PyStr.RemoveAllSplice` | fix_correct_file.py:12 | deletion can splice a new occurrence together: `p[..1] + p + p[1..]` contains `p` and becomes exactly `p` |
| `PyStr.StripTrimmed` | fix_correct_file.py:12 | `strip` returns a string with no leading or trailing whitespace, no longer than the input |
| `PyStr.StripSlice` | fix_correct_file.py:12 | `strip` returns the slice of the input between its leading whitespace run (what `lstrip` removes) and its trailing whitespace run |
| `PyStr.StripOfTrimmed` | fix_correct_file.py:12 | `strip` leaves a string without surrounding whitespace unchanged |
| `PyStr.StripLeftKeepsAbsence` | fix_correct_file.py:12 | `lstrip` cannot create an occurrence |
| `PyStr.StripRightKeepsAbsence` | fix_correct_file.py:12 | `rstrip` cannot create an occurrence |
| `PyStr.StripKeepsAbsence` | fix_correct_file.py:12 | `strip` cannot create an occurrence |
| `HizbFix.FixHizbQuarters` | fix_hizb.py:22-26 | the correction loop leaves the array equal to `FixAll` of its old contents |
| `HizbFix.FixAllSpec` | fix_hizb.py:22-28 | length and order kept; verses numbered 33..50 get quarter 3; all other verses (unnumbered ones, read as 0, and 51 onward) are unchanged; number, ayah number and other keys of every verse are unchanged |
| `HizbFix.FixAllIdempotent` | fix_hizb.py:22-26 | running the correction twice gives the same list as running it once |
| `HizbFix.FixVerseForty` | fix_hizb.py:25-26 | a verse numbered 40 with quarter 2 comes out with quarter 3, all else equal |
| `HizbFix.ScanFromSpec` | fix_hizb.py:8-16 | from position i on, the scan reports increasing positions, and reports j exactly when verse j qualifies and no qualifying verse with ayah number below 50 lies in i..j-1 |
| `HizbFix.DiagnosticSpec` | fix_hizb.py:8-16 | the diagnostic reports, in list order, exactly the verses with quarter 3 and number in 8..293, up to and including the first of them whose ayah number is below 50 |
| `HizbFix.DiagnosticScan` | fix_hizb.py:8-16 | the loop with its early `break` returns the positions `Diagnostic` specifies, and it does not modify the list |
| `HizbFix.Run` | fix_hizb.py:8-26 | the script reports on the list as loaded, then leaves it equal to `FixAll` of it |
| `BasmalaFix.BasmalaLetters` | fix_correct_file.py:6 | the basmala constant has 38 code points, does not start or end with whitespace, and its first two code points differ |
| `BasmalaFix.FixText` | fix_correct_file.py:11-12 | a text without the basmala is returned unchanged, whitespace included; a rewritten text has no leading or trailing whitespace and is strictly shorter |
| `BasmalaFix.RewriteAyahs` | fix_correct_file.py:10-12 | the inner loop returns the surah's ayahs with `FixAyah` applied to each, in order |
| `BasmalaFix.RemoveBasmala` | fix_correct_file.py:8-12 | the outer loop, which skips surah 1 and runs the inner loop on each other surah, leaves the surah array equal to `FixSurahs` of its old contents |
| `BasmalaFix.FixSurahsSpec` | fix_correct_file.py:8-12 | surah count and order, each surah's number, other keys and ayah count, and each ayah's other keys are unchanged; surah 1 is untouched; elsewhere a text containing the basmala becomes `Strip(RemoveAll(text, basmala))`, and any other text is unchanged |
| `BasmalaFix.LeadingBasmala` | fix_correct_file.py:11-12 | basmala plus a remainder free of it becomes the stripped remainder, which no longer contains the basmala and is left alone by a second run |
| `BasmalaFix.FixTextIdempotentWhen` | fix_correct_file.py:11-12 | the text fix is idempotent when the deletion leaves no basmala behind |
| `BasmalaFix.FixTextNotIdempotent` | fix_correct_file.py:11-12 | a concrete text (first letter, basmala, rest of the basmala) on which a second run changes the result, so idempotence needs a hypothesis |
| `BasmalaFix.FixSurahsIdempotentWhen` | fix_correct_file.py:8-12 | the whole correction is idempotent when no ayah text outside surah 1 has a basmala left after the deletion |

## Left out

- Reading and writing the JSON file (`json.load`, `json.dump` with `ensure_ascii=False` and `indent=2`, the in-place overwrite): this is I/O. The model starts from the parsed list and ends at the updated one. The order of keys inside a record is not kept, since only serialisation shows it.
- Console output: the completion messages are not modelled. The diagnostic's lines are modelled only as the positions of the verses printed.
- Key-lookup and type errors on malformed input (`data['data']['surahs']`, `surah['number']`, `ayah['text']`, a non-integer `number` compared with `<=`): the record datatypes give every record the expected shape, so these error paths do not arise in the model. Surah 1's ayahs are typed too, although the script never reads them, so a surah 1 without `ayahs`, or with ayahs lacking `text`, which the script accepts, cannot be represented.
- The `data['data']` envelope: `BasmalaFix.RemoveBasmala` takes the surah list itself. The script never touches anything else in the document.
- JSON floats and Python's `True == 1` / `3.0 == 3` comparisons: numbers are integers. A `hizbQuarter` of `3.0` would be reported by the real diagnostic and is not in the model.
- Aliasing between records: the lists are modelled as arrays of record values. Dictionaries produced by `json.load` are never shared, so an in-place update of one record cannot change another.
- Python strings are sequences of code points. Dafny `char` cannot hold a lone surrogate, which a Python string can.
- native-modules/android (alarm scheduling, audio playback, notification channels, boot logging): Android platform code with no logic of the scripts' kind. It is not part of this model.
