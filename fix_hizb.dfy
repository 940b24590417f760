/** The hizb-quarter correction script: a list of verse records is first
    scanned for diagnostics, then every verse numbered 33 to 50 gets
    `hizbQuarter` 3. */
module HizbFix {
  import opened Json
  import Seqs

  /** One verse record. `number` and `numberInSurah` are integers when
      present; `hizbQuarter` is whatever JSON value the key holds, `None`
      when the key is absent. `rest` holds every other key. */
  datatype Verse = Verse(
    number: Option<int>,
    numberInSurah: Option<int>,
    hizbQuarter: Option<Value>,
    rest: Fields)

  /** The inclusive range of global verse numbers that is corrected
      (Al-Baqarah ayahs 26 to 43), and the quarter they are given. */
  const FixFirst := 33
  const FixLast := 50
  const FixedQuarter := 3

  /** The quarter the diagnostic looks for and the verse range it searches
      (Al-Baqarah, global verses 8 to 293); it stops at the first reported
      verse whose ayah number is below `StopBelow`. */
  const ReportedQuarter := 3
  const SearchFirst := 8
  const SearchLast := 293
  const StopBelow := 50

  /** `verse.get('number', 0)` */
  function NumberOf(v: Verse): int { GetOr(v.number, 0) }

  /** `verse.get('numberInSurah', 0)` */
  function NumberInSurahOf(v: Verse): int { GetOr(v.numberInSurah, 0) }

  // ---------------------------------------------------------------------
  // The correction loop

  predicate InFixRange(v: Verse) {
    FixFirst <= NumberOf(v) <= FixLast
  }

  /** The body of the correction loop, for one verse. */
  function FixVerse(v: Verse): Verse {
    if InFixRange(v) then v.(hizbQuarter := Some(Number(FixedQuarter))) else v
  }

  /** The verse list after the correction loop. */
  function FixAll(s: seq<Verse>): seq<Verse> {
    Seqs.MapSeq(FixVerse, s)
  }

  /** The correction loop, updating the verse list in place. */
  method FixHizbQuarters(a: array<Verse>)
    modifies a
    ensures a[..] == FixAll(old(a[..]))
  {
    for i := 0 to a.Length
      invariant forall k :: 0 <= k < i ==> a[k] == FixVerse(old(a[k]))
      invariant forall k :: i <= k < a.Length ==> a[k] == old(a[k])
    {
      var verseNum := NumberOf(a[i]);
      if FixFirst <= verseNum <= FixLast {
        a[i] := a[i].(hizbQuarter := Some(Number(FixedQuarter)));
      }
    }
  }

  /** What the correction promises: same length and order; every verse
      numbered 33..50 has quarter 3; every other verse, including those
      without a number and those from 51 on, keeps its quarter; no other
      field of any verse changes. */
  lemma FixAllSpec(s: seq<Verse>)
    ensures |FixAll(s)| == |s|
    ensures forall k :: 0 <= k < |s| ==>
      FixAll(s)[k].number == s[k].number &&
      FixAll(s)[k].numberInSurah == s[k].numberInSurah &&
      FixAll(s)[k].rest == s[k].rest
    ensures forall k :: 0 <= k < |s| && FixFirst <= NumberOf(s[k]) <= FixLast ==>
      FixAll(s)[k].hizbQuarter == Some(Number(FixedQuarter))
    ensures forall k :: 0 <= k < |s| && !(FixFirst <= NumberOf(s[k]) <= FixLast) ==>
      FixAll(s)[k] == s[k]
  {
  }

  /** Running the correction a second time changes nothing. */
  lemma FixAllIdempotent(s: seq<Verse>)
    ensures FixAll(FixAll(s)) == FixAll(s)
  {
    Seqs.MapSeqIdempotent(FixVerse, s);
  }

  /** Verse 40 with quarter 2 comes out with quarter 3. */
  lemma FixVerseForty(rest: Fields, inSurah: Option<int>)
    ensures FixAll([Verse(Some(40), inSurah, Some(Number(2)), rest)])
         == [Verse(Some(40), inSurah, Some(Number(3)), rest)]
  {
  }

  // ---------------------------------------------------------------------
  // The diagnostic loop

  /** The diagnostic prints this verse: `verse.get('hizbQuarter') == 3`
      and its number lies in 8..293. */
  predicate Reported(v: Verse) {
    v.hizbQuarter == Some(Number(ReportedQuarter)) && SearchFirst <= NumberOf(v) <= SearchLast
  }

  /** After printing this verse the diagnostic breaks out of the loop. */
  predicate Stopper(v: Verse) {
    Reported(v) && NumberInSurahOf(v) < StopBelow
  }

  /** Positions, from `i` on, of the verses the diagnostic loop prints. */
  function ScanFrom(s: seq<Verse>, i: nat): seq<nat>
    decreases |s| - i
  {
    if i >= |s| then []
    else if Stopper(s[i]) then [i]
    else if Reported(s[i]) then [i] + ScanFrom(s, i + 1)
    else ScanFrom(s, i + 1)
  }

  /** Positions of the verses the diagnostic loop prints, in print order. */
  function Diagnostic(s: seq<Verse>): seq<nat> {
    ScanFrom(s, 0)
  }

  lemma {:induction false} ScanFromSpec(s: seq<Verse>, i: nat)
    ensures forall n :: 0 <= n < |ScanFrom(s, i)| ==> i <= ScanFrom(s, i)[n] < |s|
    ensures forall m, n :: 0 <= m < n < |ScanFrom(s, i)| ==> ScanFrom(s, i)[m] < ScanFrom(s, i)[n]
    ensures forall j :: i <= j < |s| ==>
      (j in ScanFrom(s, i) <==> Reported(s[j]) && forall m :: i <= m < j ==> !Stopper(s[m]))
    decreases |s| - i
  {
    if i < |s| && !Stopper(s[i]) {
      ScanFromSpec(s, i + 1);
    }
  }

  /** The diagnostic prints, in list order, exactly the verses with quarter
      3 and number in 8..293 that come no later than the first of them whose
      ayah number is below 50. */
  lemma DiagnosticSpec(s: seq<Verse>)
    ensures forall n :: 0 <= n < |Diagnostic(s)| ==> Diagnostic(s)[n] < |s|
    ensures forall m, n :: 0 <= m < n < |Diagnostic(s)| ==> Diagnostic(s)[m] < Diagnostic(s)[n]
    ensures forall j :: 0 <= j < |s| ==>
      (j in Diagnostic(s) <==> Reported(s[j]) && forall m :: 0 <= m < j ==> !Stopper(s[m]))
  {
    ScanFromSpec(s, 0);
  }

  /** The diagnostic loop. It only reads the list (no `modifies`) and
      returns the positions of the verses it prints. */
  method DiagnosticScan(a: array<Verse>) returns (printed: seq<nat>)
    ensures printed == Diagnostic(a[..])
  {
    printed := [];
    var i := 0;
    while i < a.Length
      invariant 0 <= i <= a.Length
      invariant printed + ScanFrom(a[..], i) == Diagnostic(a[..])
    {
      var verse := a[i];
      if verse.hizbQuarter == Some(Number(ReportedQuarter)) {
        var surahNum := NumberOf(verse);
        if SearchFirst <= surahNum <= SearchLast {
          var verseInSurah := NumberInSurahOf(verse);
          printed := printed + [i];
          if verseInSurah < StopBelow {
            break;
          }
        }
      }
      i := i + 1;
    }
  }

  /** The whole script, minus the file I/O: the diagnostic on the list as
      loaded, then the correction. */
  method Run(a: array<Verse>) returns (printed: seq<nat>)
    modifies a
    ensures printed == Diagnostic(old(a[..]))
    ensures a[..] == FixAll(old(a[..]))
  {
    printed := DiagnosticScan(a);
    FixHizbQuarters(a);
  }
}
