/** The wiki plugin's model: a table of wiki sections keyed by section key,
    kept in insertion order, plus an optional page listing the sections. */
module WikiModels {
  import opened Wrappers
  import opened Text
  import opened OrderedMaps

  /** An Orchid page, known here only by its identity. */
  datatype OrchidPage = OrchidPage(id: nat)

  /** A wiki section: its key, its summary page, its pages in order and,
      when it has one, its book page. */
  datatype WikiSection = WikiSection(
    key: string,
    summaryPage: OrchidPage,
    wikiPages: seq<OrchidPage>,
    bookPage: Option<OrchidPage>)

  /** The pages of one section in the order `allPages` adds them: the
      summary page, the wiki pages, then the book page if there is one. */
  function SectionPages(s: WikiSection): seq<OrchidPage>
  {
    [s.summaryPage] + s.wikiPages + if s.bookPage.Some? then [s.bookPage.value] else []
  }

  /** How many pages a section contributes. */
  function PageCount(s: WikiSection): nat
  {
    1 + |s.wikiPages| + if s.bookPage.Some? then 1 else 0
  }

  /** The pages of the sections under `keys`, section after section. */
  function PagesOf(keys: seq<string>, sections: map<string, WikiSection>): seq<OrchidPage>
    requires forall i :: 0 <= i < |keys| ==> keys[i] in sections
  {
    if keys == [] then []
    else PagesOf(keys[..|keys| - 1], sections) + SectionPages(sections[keys[|keys| - 1]])
  }

  /** The page counts of the sections under `keys`, added up. */
  function CountOf(keys: seq<string>, sections: map<string, WikiSection>): nat
    requires forall i :: 0 <= i < |keys| ==> keys[i] in sections
  {
    if keys == [] then 0
    else CountOf(keys[..|keys| - 1], sections) + PageCount(sections[keys[|keys| - 1]])
  }

  /** An absent page contributes nothing, a present one itself. */
  function OptionalPage(p: Option<OrchidPage>): seq<OrchidPage>
  {
    if p.Some? then [p.value] else []
  }

  /** `sections.map { it.key to it }` */
  function KeyPairs(list: seq<WikiSection>): (pairs: seq<(string, WikiSection)>)
    ensures |pairs| == |list|
    ensures forall i :: 0 <= i < |list| ==> pairs[i] == (list[i].key, list[i])
  {
    seq(|list|, i requires 0 <= i < |list| => (list[i].key, list[i]))
  }

  class WikiModel {
    var sectionsPage: Option<OrchidPage>
    var sections: OrderedMap<string, WikiSection>

    ghost predicate Valid()
      reads this
    {
      sections.Valid()
    }

    /** A fresh model: no sections page and an empty section table. */
    constructor ()
      ensures Valid()
      ensures sectionsPage == None && sections == Empty()
    {
      sectionsPage := None;
      sections := Empty();
    }

    /** `initialize(sections)`: the table is rebuilt from the list, keyed by
      each section's key; the sections page is left alone. */
    method Initialize(list: seq<WikiSection>)
      modifies this
      ensures Valid()
      ensures sections == FromPairs(KeyPairs(list))
      ensures sectionsPage == old(sectionsPage)
    {
      sections := FromPairs(KeyPairs(list));
    }

    /** `getSection(sectionKey)`: a blank key finds nothing without looking;
      any other key finds the section stored under it, if there is one. */
    function GetSection(sectionKey: string): (r: Option<WikiSection>)
      reads this
      ensures r.Some? <==> !IsBlank(sectionKey) && sectionKey in sections.values
      ensures r.Some? ==> r.value == sections.values[sectionKey]
    {
      if !IsBlank(sectionKey) then Get(sections, sectionKey) else None
    }

    /** The `allPages` getter: every section's pages in table order, then
      the sections page when there is one. Reading it changes nothing. */
    method AllPages() returns (pages: seq<OrchidPage>)
      requires Valid()
      ensures pages == PagesOf(sections.keys, sections.values) + OptionalPage(sectionsPage)
    {
      pages := [];
      for i := 0 to |sections.keys|
        invariant pages == PagesOf(sections.keys[..i], sections.values)
      {
        assert sections.keys[..i + 1][..i] == sections.keys[..i];
        var value := sections.values[sections.keys[i]];
        pages := pages + [value.summaryPage];
        pages := pages + value.wikiPages;
        if value.bookPage.Some? {
          pages := pages + [value.bookPage.value];
        }
      }
      assert sections.keys[..|sections.keys|] == sections.keys;
      if sectionsPage.Some? {
        pages := pages + [sectionsPage.value];
      }
    }
  }

  /** `allPages` has one page per summary page, wiki page and book page of
      every section, plus one for the sections page if there is one. */
  lemma {:induction false} AllPagesCount(keys: seq<string>, sections: map<string, WikiSection>, sectionsPage: Option<OrchidPage>)
    requires forall i :: 0 <= i < |keys| ==> keys[i] in sections
    ensures |PagesOf(keys, sections) + OptionalPage(sectionsPage)|
      == CountOf(keys, sections) + if sectionsPage.Some? then 1 else 0
    decreases |keys|
  {
    if keys != [] {
      AllPagesCount(keys[..|keys| - 1], sections, None);
    }
  }

  /** A page is listed exactly when some section under `keys` holds it. */
  lemma {:induction false} PageListed(keys: seq<string>, sections: map<string, WikiSection>, p: OrchidPage)
    requires forall i :: 0 <= i < |keys| ==> keys[i] in sections
    ensures p in PagesOf(keys, sections) <==> exists i :: 0 <= i < |keys| && p in SectionPages(sections[keys[i]])
    decreases |keys|
  {
    if keys != [] {
      var init := keys[..|keys| - 1];
      PageListed(init, sections, p);
      assert forall i :: 0 <= i < |init| ==> init[i] == keys[i];
      if p in PagesOf(init, sections) {
        var i :| 0 <= i < |init| && p in SectionPages(sections[init[i]]);
        assert p in SectionPages(sections[keys[i]]);
      }
    }
  }

  /** After `initialize(list)` the table holds exactly the list's keys, and a
      key that occurs more than once holds the last section with it. */
  lemma InitializedTable(list: seq<WikiSection>, i: nat)
    requires i < |list|
    requires forall j :: i < j < |list| ==> list[j].key != list[i].key
    ensures Get(FromPairs(KeyPairs(list)), list[i].key) == Some(list[i])
  {
    var pairs := KeyPairs(list);
    assert IsLastKey(pairs, i);
    FromPairsLastWins(pairs, i);
  }

  /** After `initialize(list)` a key that no section of the list has is not
      in the table. */
  lemma InitializedMissing(list: seq<WikiSection>, key: string)
    requires forall j :: 0 <= j < |list| ==> list[j].key != key
    ensures Get(FromPairs(KeyPairs(list)), key) == None
  {
    FromPairsGetMissing(KeyPairs(list), key);
  }

  /** Looking up a section after `initialize`, through the blank-key guard. */
  method InitializeThenGet(model: WikiModel, list: seq<WikiSection>, i: nat) returns (found: Option<WikiSection>)
    requires i < |list| && !IsBlank(list[i].key)
    requires forall j :: i < j < |list| ==> list[j].key != list[i].key
    modifies model
    ensures found == Some(list[i])
  {
    model.Initialize(list);
    InitializedTable(list, i);
    found := model.GetSection(list[i].key);
  }
}
