/**
 * muckrock/news/models.py: the byline of an article, the scrub of non-breaking spaces
 * when an article is saved, and the split of articles into published ones and drafts.
 */
module News {
  import opened Wrappers
  import opened Schema
  import Text

  /** U+00A0, which the article editor leaves in bodies. */
  const NBSP: char := '\U{00A0}'

  class Article {
    var pubDate: Time
    var body: string
    var publish: bool
    /** The full names of the authors, in the order `authors.all()` returns them. */
    var authors: seq<string>

    constructor (pubDate: Time, body: string, publish: bool, authors: seq<string>)
      ensures this.pubDate == pubDate && this.body == body && this.publish == publish && this.authors == authors
    {
      this.pubDate := pubDate;
      this.body := body;
      this.publish := publish;
      this.authors := authors;
    }

    /** Article.save: every non-breaking space of the body becomes a plain space. */
    method Save()
      modifies this`body
      ensures body == Scrubbed(old(body))
      ensures NBSP !in body
    {
      body := Scrubbed(body);
      ScrubbedHasNoNbsp(old(body));
    }

    /** Article.get_authors_names */
    function AuthorsNames(): (r: Result<string>)
      reads this
      ensures r == Byline(authors)
    {
      Byline(authors)
    }
  }

  /** `body.replace(u'\xa0', ' ')` */
  function Scrubbed(body: string): (r: string)
    ensures |r| == |body|
  {
    Text.ReplaceChar(body, NBSP, ' ')
  }

  /** A scrubbed body has no non-breaking space left, and differs from the original only where it had one. */
  lemma ScrubbedHasNoNbsp(body: string)
    ensures NBSP !in Scrubbed(body)
    ensures forall i :: 0 <= i < |body| && body[i] != NBSP ==> Scrubbed(body)[i] == body[i]
  {
    var r := Scrubbed(body);
    assert forall i :: 0 <= i < |r| ==> r[i] != NBSP;
  }

  /** Saving twice leaves the body as saving once did; a body without non-breaking spaces is saved as it is. */
  lemma ScrubIdempotent(body: string)
    ensures Scrubbed(Scrubbed(body)) == Scrubbed(body)
    ensures NBSP !in body ==> Scrubbed(body) == body
  {
    ScrubbedHasNoNbsp(body);
    ScrubClean(Scrubbed(body));
    if NBSP !in body {
      ScrubClean(body);
    }
  }

  lemma ScrubClean(body: string)
    requires NBSP !in body
    ensures Scrubbed(body) == body
  {
    forall i | 0 <= i < |body|
      ensures Scrubbed(body)[i] == body[i]
    {
      assert body[i] in body;
    }
  }

  /**
   * get_authors_names on the authors' full names: the names before the last joined by
   * ", ", then " & " and the last name; just the last name when the others join to the
   * empty string. `authors[-1]` raises IndexError when there is no author.
   */
  function Byline(names: seq<string>): (r: Result<string>)
    ensures r.Err? <==> names == []
    ensures r.Err? ==> r.error == IndexError
  {
    if names == [] then Err(IndexError)
    else
      var lead := Text.Join(", ", names[..|names| - 1]);
      if lead != "" then Ok(lead + " & " + names[|names| - 1])
      else Ok(names[|names| - 1])
  }

  /** One author: the byline is the author's name. */
  lemma BylineOfOne(name: string)
    ensures Byline([name]) == Ok(name)
  {
    assert [name][..0] == [];
  }

  /** Two or more authors with a non-empty lead: "A, B & C". */
  lemma BylineOfThree(a: string, b: string, c: string)
    requires a != ""
    ensures Byline([a, b, c]) == Ok(a + ", " + b + " & " + c)
  {
    assert [a, b, c][..2] == [a, b];
    assert [a, b][1..] == [b];
    assert Text.Join(", ", [a, b]) == a + ", " + b;
  }

  /**
   * With two or more authors the byline is the last name alone exactly when the others
   * join to the empty string: two authors, the first one without a name.
   */
  lemma BylineDropsEmptyLead(names: seq<string>)
    requires |names| >= 2
    ensures Byline(names) == Ok(names[|names| - 1]) <==> |names| == 2 && names[0] == ""
  {
    var init := names[..|names| - 1];
    Text.JoinEmpty(", ", init);
    var lead := Text.Join(", ", init);
    if lead != "" {
      assert |lead + " & " + names[|names| - 1]| > |names[|names| - 1]|;
    }
  }

  /** Every author's name appears in the byline, and the byline ends with the last author's name. */
  lemma BylineNamesEveryAuthor(names: seq<string>, k: nat)
    requires k < |names|
    ensures Byline(names).Ok?
    ensures Text.Contains(Byline(names).value, names[k])
    ensures var r := Byline(names).value;
            |names[|names| - 1]| <= |r| && r[|r| - |names[|names| - 1]|..] == names[|names| - 1]
  {
    var n := |names| - 1;
    var last := names[n];
    var init := names[..n];
    var lead := Text.Join(", ", init);
    var r := Byline(names).value;
    if lead == "" {
      assert r == last;
      if k < n {
        Text.JoinEmpty(", ", init);
        assert names[k] == "";
        assert Text.OccursAt(r, names[k], 0);
      } else {
        assert Text.OccursAt(r, last, 0);
      }
    } else {
      assert r == (lead + " & ") + last;
      if k < n {
        assert init[k] == names[k];
        Text.JoinContainsEach(", ", init, k);
        var i :| 0 <= i <= |lead| && Text.OccursAt(lead, names[k], i);
        Text.OccursInPrefix(lead, " & " + last, names[k], i);
        assert lead + (" & " + last) == r;
      } else {
        assert Text.OccursAt(last, last, 0);
        Text.OccursInSuffix(lead + " & ", last, last, 0);
      }
    }
  }

  // ---------------------------------------------------------------- published and drafts

  /** ArticleQuerySet.get_published: articles marked for publishing whose publish date has come. */
  function Published(articles: seq<Article>, now: Time): (r: seq<Article>)
    reads articles
    ensures forall a :: a in r ==> a in articles && a.publish && a.pubDate <= now
    ensures forall a :: a in articles && a.publish && a.pubDate <= now ==> a in r
  {
    if articles == [] then []
    else
      var last := articles[|articles| - 1];
      assert articles == articles[..|articles| - 1] + [last];
      Published(articles[..|articles| - 1], now) + (if last.publish && last.pubDate <= now then [last] else [])
  }

  /** ArticleQuerySet.get_drafts: articles not marked for publishing. */
  function Drafts(articles: seq<Article>): (r: seq<Article>)
    reads articles
    ensures forall a :: a in r ==> a in articles && !a.publish
    ensures forall a :: a in articles && !a.publish ==> a in r
  {
    if articles == [] then []
    else
      var last := articles[|articles| - 1];
      assert articles == articles[..|articles| - 1] + [last];
      Drafts(articles[..|articles| - 1]) + (if !last.publish then [last] else [])
  }

  /**
   * No article is both published and a draft; every article is one of the two, or is
   * marked for publishing with a publish date still to come.
   */
  lemma PublishedAndDraftsSplit(articles: seq<Article>, now: Time, a: Article)
    requires a in articles
    ensures !(a in Published(articles, now) && a in Drafts(articles))
    ensures a in Published(articles, now) || a in Drafts(articles) || (a.publish && a.pubDate > now)
  {
  }
}
