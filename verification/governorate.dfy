/**
  The page-title heuristic of the school reader: a page whose opening text
  mentions "Governorate" is titled by its first word, which is printed with
  the three-character page number glued to its front ("036Ninevah
  Governorate ...").
 */
module Governorate {
  import opened Strings

  /** The word whose presence marks a page title. */
  const Marker: string := "Governorate"

  /** Only this many leading characters of a page's text are examined. */
  const WindowSize: nat := 100

  /** Width of the page number printed in front of the title. */
  const PageNumberWidth: nat := 3

  /** The part of the page text the heuristic looks at (`text[:100]`). */
  function Window(text: string): (w: string)
    ensures |w| == Min(WindowSize, |text|)
    ensures w <= text
  {
    Take(text, WindowSize)
  }

  /** A window that contains the marker has a first word, so `split()[0]` exists. */
  lemma MarkerGivesWord(w: string)
    requires Contains(w, Marker)
    ensures Split(w) != []
  {
    ContainsOccurs(w, Marker);
    var i :| OccursAt(w, Marker, i);
    assert w[i] == w[i..i + |Marker|][0] == 'G';
    SplitEmptyIff(w);
  }

  /**
    `Reader.extract_governorate`: the first word of the window without its
    page-number prefix when the window mentions the marker, `None` otherwise.
   */
  function ExtractGovernorate(text: string): (gov: Option<string>)
    ensures gov.None? <==> !Contains(Window(text), Marker)
    ensures gov.Some? ==> NoSpace(gov.value)
  {
    var window := Window(text);
    if Contains(window, Marker) then
      MarkerGivesWord(window);
      SplitWords(window);
      var word := Split(window)[0];
      assert forall k :: 0 <= k < |Drop(word, PageNumberWidth)| ==>
        Drop(word, PageNumberWidth)[k] == word[k + Min(PageNumberWidth, |word|)];
      Some(Drop(word, PageNumberWidth))
    else
      None
  }

  /**
    The title is missing exactly when no occurrence of the marker lies wholly
    inside the first `WindowSize` characters; one that straddles the window's
    end does not count.
   */
  lemma GovernorateAbsentIff(text: string)
    ensures ExtractGovernorate(text) == None
        <==> !exists i :: OccursAt(text, Marker, i) && i + |Marker| <= WindowSize
  {
    var w := Window(text);
    ContainsIff(w, Marker);
    if exists i :: OccursAt(w, Marker, i) {
      var i :| OccursAt(w, Marker, i);
      assert text[i..i + |Marker|] == w[i..i + |Marker|];
      assert OccursAt(text, Marker, i) && i + |Marker| <= WindowSize;
    }
    if exists i :: OccursAt(text, Marker, i) && i + |Marker| <= WindowSize {
      var i :| OccursAt(text, Marker, i) && i + |Marker| <= WindowSize;
      assert w[i..i + |Marker|] == text[i..i + |Marker|];
      assert OccursAt(w, Marker, i);
    }
  }

  /** When the title is present, the window has a first word: taking `split()[0]` cannot fail. */
  lemma GovernorateHasFirstWord(text: string)
    requires ExtractGovernorate(text).Some?
    ensures exists i, j :: IsFirstWord(Window(text), i, j)
  {
    var w := Window(text);
    ContainsOccurs(w, Marker);
    var p :| OccursAt(w, Marker, p);
    assert w[p] == w[p..p + |Marker|][0] == 'G';
    assert !IsSpace('G');
    FirstWordExists(w, p);
  }

  /**
    When the title is present it is the window's first word `w[i..j]` with its
    first three characters removed; a first word of three characters or fewer
    leaves the empty title.
   */
  lemma GovernorateIsFirstWordTail(text: string, i: int, j: int)
    requires IsFirstWord(Window(text), i, j)
    requires ExtractGovernorate(text).Some?
    ensures ExtractGovernorate(text).value == Window(text)[i + Min(PageNumberWidth, j - i)..j]
    ensures j - i <= PageNumberWidth ==> ExtractGovernorate(text).value == ""
    ensures NoSpace(ExtractGovernorate(text).value)
  {
    var w := Window(text);
    SplitFirstWord(w, i, j);
    assert w[i..j][Min(PageNumberWidth, j - i)..] == w[i + Min(PageNumberWidth, j - i)..j];
  }

  /**
    Only the first `WindowSize` characters matter: two texts that agree on
    them get the same title, however they differ afterwards.
   */
  lemma GovernorateDependsOnWindow(a: string, b: string)
    requires Min(WindowSize, |a|) == Min(WindowSize, |b|)
    requires forall k :: 0 <= k < Min(WindowSize, |a|) ==> a[k] == b[k]
    ensures ExtractGovernorate(a) == ExtractGovernorate(b)
  {
    assert Window(a) == Window(b);
  }

  /** Appending to a text that already fills the window never changes its title. */
  lemma GovernorateIgnoresAppended(text: string, more: string)
    requires |text| >= WindowSize
    ensures ExtractGovernorate(text + more) == ExtractGovernorate(text)
  {
    GovernorateDependsOnWindow(text + more, text);
  }

  /** 92 filler characters, a space, then the marker. */
  function StraddlingText(): string
  {
    seq(92, _ => 'x') + " Governorate"
  }

  /**
    A marker that starts inside the window but ends past it is not seen: the
    text below mentions "Governorate" at index 93, yet has no title.
   */
  lemma StraddlingMarkerIgnored()
    ensures Contains(StraddlingText(), Marker)
    ensures ExtractGovernorate(StraddlingText()) == None
  {
    var text := StraddlingText();
    assert text[93..104] == Marker;
    OccursAtContains(text, Marker, 93);
    forall i | 0 <= i && i + |Marker| <= WindowSize
      ensures !OccursAt(text, Marker, i)
    {
      assert text[i..i + |Marker|][0] == text[i] == 'x';
    }
    GovernorateAbsentIff(text);
  }

  /**
    A page that opens with a three-character page number, the title, a space
    and the marker (within the window) is titled exactly by that title.
   */
  lemma TitledPage(number: string, title: string, rest: string)
    requires |number| == PageNumberWidth && NoSpace(number) && NoSpace(title)
    requires |number| + |title| + 1 + |Marker| <= WindowSize
    ensures ExtractGovernorate(number + title + " " + Marker + rest) == Some(title)
  {
    var text := number + title + " " + Marker + rest;
    var p := |number| + |title| + 1;
    assert text[p..p + |Marker|] == Marker;
    assert OccursAt(text, Marker, p);
    GovernorateAbsentIff(text);
    var w := Window(text);
    var j := |number| + |title|;
    assert w[..j + 1] == text[..j + 1] == number + title + " ";
    forall k | 0 <= k < j
      ensures !IsSpace(w[k])
    {
      if k < |number| {
        assert w[k] == number[k];
      } else {
        assert w[k] == title[k - |number|];
      }
    }
    assert w[j] == ' ';
    assert IsFirstWord(w, 0, j);
    GovernorateIsFirstWordTail(text, 0, j);
    assert w[PageNumberWidth..j] == title;
  }

  /** The title of a page that opens with "036Ninevah Governorate". */
  lemma GovernorateExample()
    ensures ExtractGovernorate("036" + "Ninevah" + " " + Marker + "\nSchools") == Some("Ninevah")
  {
    assert NoSpace("036") && NoSpace("Ninevah");
    TitledPage("036", "Ninevah", "\nSchools");
  }
}
