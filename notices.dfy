/** The notice extractor: from a parsed portal response to one record per
    notice card, with title and date from the card's info divs, the
    description from the modal the card's trigger points at, and the card's
    download links, resolved and deduplicated. */
module Notices {
  import opened Strings
  import opened Dom

  const NoTitle := "No Title Found"
  const NoDate := "No Date Found"
  const NoDescription := "No Description Found"

  const PostNotice := ByClass("div", "post_notice")
  const Info := ByClass("div", "AdmsnTxt")
  const ModalTrigger := ByClass("a", "modal-trigger")
  const ModalContent := ByClass("div", "modal-content")
  const DownloadBox := ByClass("div", "download_box")
  const AnyDiv := ByTag("div")
  const AnyAnchor := ByTag("a")

  /** One extracted notice. `fetchedAt` is the clock reading taken when the
      record was built. */
  datatype Notice = Notice(
    date: string,
    title: string,
    description: string,
    downloadLinks: seq<string>,
    fetchedAt: string)

  /* ---------- Sequences without duplicates ---------- */

  predicate NoDuplicates<T(==)>(s: seq<T>) {
    forall i, j :: 0 <= i < j < |s| ==> s[i] != s[j]
  }

  /** Position of the first occurrence of `x` in `s`. */
  function IndexOf<T(==)>(s: seq<T>, x: T): (k: nat)
    requires x in s
    ensures k < |s| && s[k] == x && x !in s[..k]
  {
    if s[0] == x then 0 else 1 + IndexOf(s[1..], x)
  }

  /** The first occurrence of `x` in `s` is also its first occurrence in any
      longer sequence that begins with `s`. */
  lemma IndexOfPrefix<T>(s: seq<T>, n: nat, x: T)
    requires n <= |s| && x in s[..n]
    ensures IndexOf(s, x) == IndexOf(s[..n], x)
  {
    var k, k' := IndexOf(s, x), IndexOf(s[..n], x);
    assert s[..n][k'] == s[k'];
    assert s[..n][..k'] == s[..k'];
  }

  /** `s` with every repeated element after its first occurrence dropped, as
      built by appending each element that is not yet in the result. */
  function Dedup(s: seq<string>): (r: seq<string>)
    ensures |r| <= |s|
    ensures forall x :: x in r <==> x in s
    ensures NoDuplicates(r)
  {
    if s == [] then []
    else
      var d := Dedup(s[..|s| - 1]);
      assert s == s[..|s| - 1] + [s[|s| - 1]];
      if s[|s| - 1] in d then d else d + [s[|s| - 1]]
  }

  /** Deduplication keeps the elements in the order of their first
      occurrence. */
  lemma {:induction false} DedupKeepsFirstOccurrenceOrder(s: seq<string>)
    ensures forall i, j :: 0 <= i < j < |Dedup(s)| ==>
              IndexOf(s, Dedup(s)[i]) < IndexOf(s, Dedup(s)[j])
  {
    if s != [] {
      var p := s[..|s| - 1];
      var x := s[|s| - 1];
      var d := Dedup(p);
      assert p == s[..|p|];
      DedupKeepsFirstOccurrenceOrder(p);
      forall y | y in d
        ensures IndexOf(s, y) == IndexOf(p, y)
      {
        IndexOfPrefix(s, |p|, y);
      }
      if x !in d {
        assert x !in p;
        assert IndexOf(s, x) == |p|;
      }
    }
  }

  /** Deduplicating one more element appends it exactly when it is new. */
  lemma DedupSnoc(s: seq<string>, u: string)
    ensures Dedup(s + [u]) == if u in Dedup(s) then Dedup(s) else Dedup(s) + [u]
  {
    assert (s + [u])[..|s|] == s;
  }

  /* ---------- The specification of one card ---------- */

  /** The notice cards of the document, in document order. */
  function Cards(doc: Node): seq<Node> {
    FindAll(doc, PostNotice)
  }

  function TitleOf(card: Node): string {
    var info := FindAll(card, Info);
    if |info| > 0 then GetText(info[0], "") else NoTitle
  }

  function DateOf(card: Node): string {
    var info := FindAll(card, Info);
    if |info| > 1 then GetText(info[1], "") else NoDate
  }

  /** `a.get("href", "")`. */
  function Href(a: Node): string {
    if a.Element? && a.href.Some? then a.href.value else ""
  }

  /** The id a trigger's href points at: the href without its leading '#'s. */
  function ModalId(href: string): (id: string)
    ensures |id| <= |href| && href == href[..|href| - |id|] + id
    ensures forall i :: 0 <= i < |href| - |id| ==> href[i] == '#'
    ensures id == [] || id[0] != '#'
  {
    LStrip(href, '#')
  }

  /** Every leading '#' goes, not only the first: "##x" gives "x". */
  lemma {:induction false} ModalIdStripsAllHashes(hashes: nat, id: string)
    requires id == [] || id[0] != '#'
    ensures ModalId(seq(hashes, _ => '#') + id) == id
  {
    if hashes > 0 {
      var s := seq(hashes, _ => '#') + id;
      assert s[1..] == seq(hashes - 1, _ => '#') + id;
      ModalIdStripsAllHashes(hashes - 1, id);
    } else {
      assert seq(hashes, _ => '#') + id == id;
    }
  }

  /** The description the card's modal trigger resolves to, or the sentinel
      when there is no trigger, its href does not start with '#', no div of
      the document has the id, or that div has no `modal-content` div. */
  function DescriptionOf(doc: Node, card: Node): string {
    match Find(card, ModalTrigger)
    case None => NoDescription
    case Some(link) =>
      if !StartsWith(Href(link), "#") then NoDescription
      else
        match Find(doc, ById("div", ModalId(Href(link))))
        case None => NoDescription
        case Some(modal) =>
          match Find(modal, ModalContent)
          case None => NoDescription
          case Some(content) =>
            match Find(content, AnyDiv)
            case Some(inner) => GetText(inner, "\n")
            case None => GetText(content, "\n")
  }

  /** What one download box contributes: the resolved href of its first
      anchor, when that href is present and not empty. */
  function LinkOf(box: Node, base: string, resolve: (string, string) -> string): (r: seq<string>)
    ensures |r| <= 1
  {
    match Find(box, AnyAnchor)
    case None => []
    case Some(a) => if Href(a) != "" then [resolve(base, Href(a))] else []
  }

  /** The contributions of the boxes, in box order, duplicates kept. */
  function Candidates(boxes: seq<Node>, base: string, resolve: (string, string) -> string): (r: seq<string>)
    ensures |r| <= |boxes|
    ensures forall u :: u in r ==> exists box :: box in boxes && LinkOf(box, base, resolve) == [u]
    ensures forall box, u :: box in boxes && u in LinkOf(box, base, resolve) ==> u in r
  {
    if boxes == [] then []
    else
      var prefix := boxes[..|boxes| - 1];
      var last := boxes[|boxes| - 1];
      assert forall box :: box in boxes ==> box in prefix || box == last;
      Candidates(prefix, base, resolve) + LinkOf(last, base, resolve)
  }

  lemma CandidatesSnoc(boxes: seq<Node>, j: nat, base: string, resolve: (string, string) -> string)
    requires j < |boxes|
    ensures Candidates(boxes[..j + 1], base, resolve) == Candidates(boxes[..j], base, resolve) + LinkOf(boxes[j], base, resolve)
  {
    assert boxes[..j + 1][..j] == boxes[..j];
  }

  function LinksOf(card: Node, base: string, resolve: (string, string) -> string): seq<string> {
    Dedup(Candidates(FindAll(card, DownloadBox), base, resolve))
  }

  /** The record the extractor builds for `card`. */
  function NoticeOf(doc: Node, card: Node, base: string, resolve: (string, string) -> string, stamp: string): Notice {
    Notice(DateOf(card), TitleOf(card), DescriptionOf(doc, card), LinksOf(card, base, resolve), stamp)
  }

  /* ---------- The extractor ---------- */

  /** `[build(cards[0], 0), build(cards[1], 1), ...]`. */
  function BuildAll<T>(cards: seq<Node>, build: (Node, nat) -> T): seq<T> {
    if cards == [] then []
    else BuildAll(cards[..|cards| - 1], build) + [build(cards[|cards| - 1], |cards| - 1)]
  }

  /** One element per card, the k-th built from the k-th card and k. */
  lemma {:induction false} BuildAllAt<T>(cards: seq<Node>, build: (Node, nat) -> T)
    ensures |BuildAll(cards, build)| == |cards|
    ensures forall k :: 0 <= k < |cards| ==> BuildAll(cards, build)[k] == build(cards[k], k)
  {
    if cards != [] {
      var prefix := cards[..|cards| - 1];
      BuildAllAt(prefix, build);
      assert forall k :: 0 <= k < |prefix| ==> prefix[k] == cards[k];
    }
  }

  /** The records of `cards`, the k-th stamped with `clock(k)`. This is the
      `BuildAll` instance for `NoticeOf` (`NoticesOfIsBuildAll`), written out
      so that the card loop's invariant need not reason through a lambda:
      the loop is proved against this function, and the per-card facts come
      from the generic `BuildAllAt`. */
  function NoticesOf(doc: Node, cards: seq<Node>, base: string, resolve: (string, string) -> string, clock: nat -> string)
    : seq<Notice>
  {
    if cards == [] then []
    else NoticesOf(doc, cards[..|cards| - 1], base, resolve, clock) +
         [NoticeOf(doc, cards[|cards| - 1], base, resolve, clock(|cards| - 1))]
  }

  lemma NoticesOfSnoc(doc: Node, cards: seq<Node>, k: nat, base: string, resolve: (string, string) -> string, clock: nat -> string)
    requires k < |cards|
    ensures NoticesOf(doc, cards[..k + 1], base, resolve, clock) ==
            NoticesOf(doc, cards[..k], base, resolve, clock) + [NoticeOf(doc, cards[k], base, resolve, clock(k))]
  {
    assert cards[..k + 1][..k] == cards[..k];
  }

  lemma {:induction false} NoticesOfIsBuildAll(doc: Node, cards: seq<Node>, base: string, resolve: (string, string) -> string, clock: nat -> string)
    ensures NoticesOf(doc, cards, base, resolve, clock) ==
            BuildAll(cards, (c: Node, i: nat) => NoticeOf(doc, c, base, resolve, clock(i)))
  {
    if cards != [] {
      NoticesOfIsBuildAll(doc, cards[..|cards| - 1], base, resolve, clock);
    }
  }

  /** One record per card, in card order, the k-th built from the k-th card
      and stamped with `clock(k)`. */
  lemma {:induction false} NoticesOfAt(doc: Node, cards: seq<Node>, base: string, resolve: (string, string) -> string, clock: nat -> string)
    ensures |NoticesOf(doc, cards, base, resolve, clock)| == |cards|
    ensures forall k :: 0 <= k < |cards| ==>
              NoticesOf(doc, cards, base, resolve, clock)[k] == NoticeOf(doc, cards[k], base, resolve, clock(k))
  {
    NoticesOfIsBuildAll(doc, cards, base, resolve, clock);
    BuildAllAt(cards, (c: Node, i: nat) => NoticeOf(doc, c, base, resolve, clock(i)));
  }

  /** Builds one record per notice card, in document order. `resolve` is
      `urljoin`; `clock(k)` is the UTC time read when the k-th record is
      built. */
  method ParseNotices(doc: Node, base: string, resolve: (string, string) -> string, clock: nat -> string)
    returns (results: seq<Notice>)
    ensures results == NoticesOf(doc, Cards(doc), base, resolve, clock)
  {
    var cards := Cards(doc);
    results := [];
    var k := 0;
    while k < |cards|
      invariant 0 <= k <= |cards|
      invariant results == NoticesOf(doc, cards[..k], base, resolve, clock)
    {
      var record := CardNotice(doc, cards[k], base, resolve, clock(k));
      NoticesOfSnoc(doc, cards, k, base, resolve, clock);
      results := results + [record];
      k := k + 1;
    }
    assert cards[..k] == cards;
  }

  /** The record of one card: title and date from its first two info divs,
      the description behind its modal trigger, and its download links. */
  method CardNotice(doc: Node, card: Node, base: string, resolve: (string, string) -> string, stamp: string)
    returns (record: Notice)
    ensures record == NoticeOf(doc, card, base, resolve, stamp)
  {
    var info := FindAll(card, Info);
    var title := if |info| > 0 then GetText(info[0], "") else NoTitle;
    var date := if |info| > 1 then GetText(info[1], "") else NoDate;
    var description := Description(doc, card);
    var links := DownloadLinks(card, base, resolve);
    record := Notice(date, title, description, links, stamp);
  }

  /** The description of one card: follow the modal trigger's href to the
      div with that id, then take the text of its `modal-content` div. */
  method Description(doc: Node, card: Node) returns (description: string)
    ensures description == DescriptionOf(doc, card)
  {
    description := NoDescription;
    var modalLink := Find(card, ModalTrigger);
    if modalLink.Some? && StartsWith(Href(modalLink.value), "#") {
      var modalId := LStrip(Href(modalLink.value), '#');
      var modalDiv := Find(doc, ById("div", modalId));
      if modalDiv.Some? {
        var content := Find(modalDiv.value, ModalContent);
        if content.Some? {
          var inner := Find(content.value, AnyDiv);
          description := if inner.Some? then GetText(inner.value, "\n") else GetText(content.value, "\n");
        }
      }
    }
  }

  /** The download links of one card: the first anchor of each download box,
      resolved, each appended unless already present. */
  method DownloadLinks(card: Node, base: string, resolve: (string, string) -> string)
    returns (links: seq<string>)
    ensures links == LinksOf(card, base, resolve)
  {
    var boxes := FindAll(card, DownloadBox);
    links := [];
    var j := 0;
    while j < |boxes|
      invariant 0 <= j <= |boxes|
      invariant links == Dedup(Candidates(boxes[..j], base, resolve))
    {
      var box := boxes[j];
      CandidatesSnoc(boxes, j, base, resolve);
      var linkTag := Find(box, AnyAnchor);
      if linkTag.Some? && Href(linkTag.value) != "" {
        var fullLink := resolve(base, Href(linkTag.value));
        DedupSnoc(Candidates(boxes[..j], base, resolve), fullLink);
        if fullLink !in links {
          links := links + [fullLink];
        }
      } else {
        assert Candidates(boxes[..j], base, resolve) + LinkOf(box, base, resolve) == Candidates(boxes[..j], base, resolve);
      }
      j := j + 1;
    }
    assert boxes[..j] == boxes;
  }

  /* ---------- Properties ---------- */

  /** The extractor returns no records exactly when no descendant of the
      document is a `post_notice` div. */
  lemma NoCardsNoNotices(doc: Node, base: string, resolve: (string, string) -> string, clock: nat -> string)
    ensures NoticesOf(doc, Cards(doc), base, resolve, clock) == [] <==>
            forall x :: x in Descendants(doc) ==> !Satisfies(x, PostNotice)
  {
    NoticesOfAt(doc, Cards(doc), base, resolve, clock);
    if Cards(doc) != [] {
      assert Cards(doc)[0] in Cards(doc);
    }
  }

  /** Title and date come from the first two info divs and only from them:
      two cards whose first two info divs are the same get the same title
      and date, whatever follows. */
  lemma OnlyFirstTwoInfoDivsMatter(c1: Node, c2: Node)
    requires var i1, i2 := FindAll(c1, Info), FindAll(c2, Info);
             (|i1| >= 2 && |i2| >= 2 && i1[..2] == i2[..2]) || i1 == i2
    ensures TitleOf(c1) == TitleOf(c2) && DateOf(c1) == DateOf(c2)
  {
    var i1, i2 := FindAll(c1, Info), FindAll(c2, Info);
    if i1 != i2 {
      assert i1[0] == i1[..2][0] && i1[1] == i1[..2][1];
      assert i2[0] == i2[..2][0] && i2[1] == i2[..2][1];
    }
  }

  /** Missing info divs give the sentinels; a present info div whose strings
      are all whitespace gives the empty string, not the sentinel. */
  lemma TitleAndDateSentinels(card: Node)
    ensures FindAll(card, Info) == [] ==> TitleOf(card) == NoTitle && DateOf(card) == NoDate
    ensures |FindAll(card, Info)| == 1 ==> DateOf(card) == NoDate
    ensures |FindAll(card, Info)| > 0 &&
            (forall t :: t in ReadTexts(FindAll(card, Info)[0]) ==> AllSpace(t))
            ==> TitleOf(card) == ""
    ensures |FindAll(card, Info)| > 1 &&
            (forall t :: t in ReadTexts(FindAll(card, Info)[1]) ==> AllSpace(t))
            ==> DateOf(card) == ""
  {
  }

  /** The card's trigger leads, through the document, to a `modal-content`
      div. */
  predicate ModalResolves(doc: Node, card: Node) {
    var link := Find(card, ModalTrigger);
    link.Some? && StartsWith(Href(link.value), "#") &&
    var modal := Find(doc, ById("div", ModalId(Href(link.value))));
    modal.Some? && Find(modal.value, ModalContent).Some?
  }

  /** The description is the sentinel unless the trigger resolves to a
      `modal-content` div; when it does, it is the text of that div's first
      inner div, or of the whole `modal-content` div when it has none. */
  lemma DescriptionResolution(doc: Node, card: Node)
    ensures !ModalResolves(doc, card) ==> DescriptionOf(doc, card) == NoDescription
    ensures ModalResolves(doc, card) ==>
              var link := Find(card, ModalTrigger).value;
              var modal := Find(doc, ById("div", ModalId(Href(link)))).value;
              var content := Find(modal, ModalContent).value;
              DescriptionOf(doc, card) ==
                (if Find(content, AnyDiv).Some? then GetText(Find(content, AnyDiv).value, "\n")
                 else GetText(content, "\n"))
  {
  }

  /** The modal lookup takes the first div of the whole document carrying
      the id, whether or not it sits inside a modal. */
  lemma ModalLookupIsFirstDivWithId(doc: Node, id: string)
    requires Find(doc, ById("div", id)).Some?
    ensures exists k :: 0 <= k < |Descendants(doc)| &&
                        Descendants(doc)[k] == Find(doc, ById("div", id)).value &&
                        IsFirstMatch(Descendants(doc), ById("div", id), k)
  {
    FindIsFirst(doc, ById("div", id));
  }

  /** The download links of a card: no duplicates, at most one per download
      box, each the resolved first-anchor href of some box, every such href
      present, and in the order in which the boxes first give them. */
  lemma DownloadLinksProperties(card: Node, base: string, resolve: (string, string) -> string)
    ensures var links := LinksOf(card, base, resolve);
            var boxes := FindAll(card, DownloadBox);
            NoDuplicates(links) && |links| <= |boxes| &&
            (forall u :: u in links <==> exists box :: box in boxes && LinkOf(box, base, resolve) == [u])
    ensures var links := LinksOf(card, base, resolve);
            var all := Candidates(FindAll(card, DownloadBox), base, resolve);
            forall i, j :: 0 <= i < j < |links| ==> IndexOf(all, links[i]) < IndexOf(all, links[j])
  {
    var boxes := FindAll(card, DownloadBox);
    var all := Candidates(boxes, base, resolve);
    DedupKeepsFirstOccurrenceOrder(all);
    forall u | exists box :: box in boxes && LinkOf(box, base, resolve) == [u]
      ensures u in all
    {
      var box :| box in boxes && LinkOf(box, base, resolve) == [u];
      assert u in LinkOf(box, base, resolve);
    }
  }

  /** Two boxes whose anchors resolve to the same URL give one link. */
  lemma SameUrlTwiceGivesOneLink(b1: Node, b2: Node, base: string, resolve: (string, string) -> string, u: string)
    requires LinkOf(b1, base, resolve) == [u] && LinkOf(b2, base, resolve) == [u]
    ensures Dedup(Candidates([b1, b2], base, resolve)) == [u]
  {
    assert [b1, b2][..1] == [b1];
    assert [b1][..0] == [];
  }
}
