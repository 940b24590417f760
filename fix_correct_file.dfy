/** The basmala correction script: in every surah except the first, each
    ayah text that contains the basmala has every occurrence deleted and
    the rest trimmed of surrounding whitespace. */
module BasmalaFix {
  import opened Json
  import opened PyStr
  import Seqs

  /** One ayah record: its text and every other key. */
  datatype Ayah = Ayah(text: string, rest: Fields)

  /** One surah record: its number, its ayahs in order, and every other key. */
  datatype Surah = Surah(number: int, ayahs: seq<Ayah>, rest: Fields)

  /** "In the name of God, the Most Gracious, the Most Merciful", in the
      dataset's Uthmani spelling: 38 code points, three of them spaces. */
  const Basmala: string := "بِسْمِ ٱللَّهِ ٱلرَّحْمَٰنِ ٱلرَّحِيمِ"

  /** The one surah that keeps its basmala as its first ayah. */
  const Opening := 1

  /** The loop body for one ayah text. */
  function FixText(t: string): (r: string)
    ensures !Contains(t, Basmala) ==> r == t
    ensures Contains(t, Basmala) ==> Trimmed(r) && |r| < |t|
  {
    if Contains(t, Basmala) then
      StripTrimmed(RemoveAll(t, Basmala));
      RemoveAllShrinks(t, Basmala);
      Strip(RemoveAll(t, Basmala))
    else t
  }

  function FixAyah(a: Ayah): Ayah {
    a.(text := FixText(a.text))
  }

  /** The loop body for one surah: surah 1 is skipped. */
  function FixSurah(s: Surah): Surah {
    if s.number != Opening then s.(ayahs := Seqs.MapSeq(FixAyah, s.ayahs)) else s
  }

  /** The surah list after the nested correction loops. */
  function FixSurahs(ss: seq<Surah>): seq<Surah> {
    Seqs.MapSeq(FixSurah, ss)
  }

  /** The inner loop over one surah's ayahs, rewriting every text that
      contains the basmala. */
  method RewriteAyahs(ayahs: seq<Ayah>) returns (fixed: seq<Ayah>)
    ensures fixed == Seqs.MapSeq(FixAyah, ayahs)
  {
    fixed := ayahs;
    for j := 0 to |fixed|
      invariant |fixed| == |ayahs|
      invariant forall k :: 0 <= k < j ==> fixed[k] == FixAyah(ayahs[k])
      invariant forall k :: j <= k < |fixed| ==> fixed[k] == ayahs[k]
    {
      var text := fixed[j].text;
      if Contains(text, Basmala) {
        fixed := fixed[j := fixed[j].(text := Strip(RemoveAll(text, Basmala)))];
      }
    }
  }

  /** The outer loop over the surahs, updating the surah list in place;
      surah 1 is skipped. */
  method RemoveBasmala(surahs: array<Surah>)
    modifies surahs
    ensures surahs[..] == FixSurahs(old(surahs[..]))
  {
    for i := 0 to surahs.Length
      invariant forall k :: 0 <= k < i ==> surahs[k] == FixSurah(old(surahs[k]))
      invariant forall k :: i <= k < surahs.Length ==> surahs[k] == old(surahs[k])
    {
      var surah := surahs[i];
      if surah.number != Opening {
        var ayahs := RewriteAyahs(surah.ayahs);
        surahs[i] := surah.(ayahs := ayahs);
      }
    }
  }

  /** What the correction promises: the surah list keeps its length and
      order, each surah its number, other keys and number of ayahs, each
      ayah its other keys; surah 1 is untouched; every other ayah text is
      trimmed of the basmala when it contains it, and left exactly as it
      was when it does not. */
  lemma FixSurahsSpec(ss: seq<Surah>)
    ensures |FixSurahs(ss)| == |ss|
    ensures forall i :: 0 <= i < |ss| ==>
      FixSurahs(ss)[i].number == ss[i].number &&
      FixSurahs(ss)[i].rest == ss[i].rest &&
      |FixSurahs(ss)[i].ayahs| == |ss[i].ayahs|
    ensures forall i :: 0 <= i < |ss| && ss[i].number == Opening ==> FixSurahs(ss)[i] == ss[i]
    ensures forall i, j :: 0 <= i < |ss| && 0 <= j < |ss[i].ayahs| ==>
      FixSurahs(ss)[i].ayahs[j].rest == ss[i].ayahs[j].rest
    ensures forall i, j :: 0 <= i < |ss| && ss[i].number != Opening && 0 <= j < |ss[i].ayahs| ==>
      FixSurahs(ss)[i].ayahs[j].text ==
        (if Contains(ss[i].ayahs[j].text, Basmala)
         then Strip(RemoveAll(ss[i].ayahs[j].text, Basmala))
         else ss[i].ayahs[j].text)
  {
  }

  /** A text that is the basmala followed by a remainder free of it becomes
      the stripped remainder; that no longer contains the basmala, so a
      second run leaves it alone. */
  lemma LeadingBasmala(rest: string)
    requires !Contains(rest, Basmala)
    ensures FixText(Basmala + rest) == Strip(rest)
    ensures !Contains(FixText(Basmala + rest), Basmala)
    ensures FixText(FixText(Basmala + rest)) == FixText(Basmala + rest)
  {
    var t := Basmala + rest;
    assert Basmala <= t;
    assert Contains(t, Basmala);
    RemoveAllLeading(Basmala, rest);
    RemoveAllAbsent(rest, Basmala);
    StripKeepsAbsence(rest, Basmala);
  }

  /** The text correction is idempotent on a text from which deleting the
      basmala does not splice a new basmala together. */
  lemma FixTextIdempotentWhen(t: string)
    requires !Contains(RemoveAll(t, Basmala), Basmala)
    ensures FixText(FixText(t)) == FixText(t)
  {
    if Contains(t, Basmala) {
      StripKeepsAbsence(RemoveAll(t, Basmala), Basmala);
    }
  }

  /** The basmala starts and ends with a letter or mark, and its first two
      code points differ. */
  lemma BasmalaLetters()
    ensures |Basmala| == 38
    ensures Basmala[0] != Basmala[1]
    ensures !IsWhitespace(Basmala[0]) && !IsWhitespace(Basmala[|Basmala| - 1])
  {
    assert Basmala[0] == '\U{628}';
    assert Basmala[1] == '\U{650}';
    assert Basmala[37] == '\U{650}';
  }

  /** Without that hypothesis idempotence fails: in the first letter of the
      basmala, then the basmala, then the rest of it, deleting the inner
      occurrence splices the outer pieces into a new basmala, which a
      second run deletes. */
  lemma FixTextNotIdempotent()
    ensures var t := Basmala[..1] + Basmala + Basmala[1..];
      FixText(t) == Basmala && FixText(FixText(t)) == []
  {
    BasmalaLetters();
    RemoveAllSplice(Basmala);
    StripOfTrimmed(Basmala);
    RemoveAllSelf(Basmala);
  }

  /** Running the whole correction twice equals running it once, provided
      no text of a surah other than 1 has a basmala spliced together by
      the deletion. */
  lemma FixSurahsIdempotentWhen(ss: seq<Surah>)
    requires forall i, j :: 0 <= i < |ss| && ss[i].number != Opening && 0 <= j < |ss[i].ayahs| ==>
      !Contains(RemoveAll(ss[i].ayahs[j].text, Basmala), Basmala)
    ensures FixSurahs(FixSurahs(ss)) == FixSurahs(ss)
  {
    forall i | 0 <= i < |ss| ensures FixSurah(FixSurah(ss[i])) == FixSurah(ss[i]) {
      if ss[i].number != Opening {
        forall j | 0 <= j < |ss[i].ayahs| ensures FixAyah(FixAyah(ss[i].ayahs[j])) == FixAyah(ss[i].ayahs[j]) {
          FixTextIdempotentWhen(ss[i].ayahs[j].text);
        }
        Seqs.MapSeqIdempotent(FixAyah, ss[i].ayahs);
      }
    }
    Seqs.MapSeqIdempotent(FixSurah, ss);
  }
}
