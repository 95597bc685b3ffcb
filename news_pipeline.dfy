/**
 * The local news pipeline's bookkeeping (`backend/main.py`): drop stored articles
 * older than the retention window, skip scraped items whose URL is already stored,
 * turn each AI rewrite into a stored record with a fresh `<secs>-<idx>` id, and put the new
 * records in front of the old ones. File I/O, the scraper and the model calls are
 * parameters; so are the library's date parsing and the clock.
 */
module NewsPipeline {
  import opened Wrappers

  /** A stored article as read back from the JSON file: an object of string fields, or any other JSON value. */
  datatype Entry = Dict(fields: map<string, string>) | NonDict

  /** One item the scraper returns. */
  datatype Scraped = Scraped(
    originalTitle: string,
    originalUrl: string,
    originalSource: string,
    publishedAt: string,
    imageUrl: string,
    content: string)

  /**
   * The library calls the retention filter relies on, each `None` where Python raises:
   * `datetime.strptime(text, format)`, `int(text)` and `datetime.fromtimestamp(secs)`,
   * all giving local wall-clock seconds.
   */
  datatype DateLib = DateLib(
    strptime: (string, string) -> Option<int>,
    toInt: string -> Option<int>,
    fromTimestamp: int -> Option<int>)

  datatype RunOutcome = Saved(articles: seq<Entry>) | Crashed

  /** `RETENTION_DAYS`. */
  const RetentionDays: int := 30
  const SecondsPerDay: int := 24 * 60 * 60

  /**
   * The `published_at` formats in the order they are tried, as passed to `strptime`:
   * the source lists "%a, %d %b %Y %H:%M:%S %z", "%Y-%m-%dT%H:%M:%SZ" and "%Y-%m-%d"
   * and deletes " %z", turns "T" into a space and deletes "Z" in each before use.
   */
  const PublishedFormats: seq<string> := ["%a, %d %b %Y %H:%M:%S", "%Y-%m-%d %H:%M:%S", "%Y-%m-%d"]

  /** Python's `s[:n]`. */
  function Head(s: string, n: nat): (h: string)
    ensures |h| == (if |s| <= n then |s| else n) && h <= s
  {
    if |s| <= n then s else s[..n]
  }

  // ---------------------------------------------------------------------------
  // Dating one article
  // ---------------------------------------------------------------------------

  /** The first format in `formats` that `strptime` accepts `text` with, and what it yields. */
  function FirstMatch(text: string, formats: seq<string>, lib: DateLib): (d: Option<int>)
    ensures d.Some? ==> exists i :: 0 <= i < |formats| && lib.strptime(text, formats[i]) == d
  {
    if formats == [] then None
    else if lib.strptime(text, formats[0]).Some? then lib.strptime(text, formats[0])
    else
      var d := FirstMatch(text, formats[1..], lib);
      assert d.Some? ==> exists i :: 1 <= i < |formats| && lib.strptime(text, formats[i]) == d by {
        if d.Some? {
          var i :| 0 <= i < |formats[1..]| && lib.strptime(text, formats[1..][i]) == d;
          assert formats[i + 1] == formats[1..][i];
        }
      }
      d
  }

  /** Formats are tried in list order and the first success wins; no success means no date. */
  lemma {:induction false} FirstMatchPrecedence(text: string, formats: seq<string>, lib: DateLib)
    ensures FirstMatch(text, formats, lib).None?
        <==> forall i :: 0 <= i < |formats| ==> lib.strptime(text, formats[i]).None?
    ensures FirstMatch(text, formats, lib).Some? ==>
      exists i :: 0 <= i < |formats| && FirstMatch(text, formats, lib) == lib.strptime(text, formats[i])
        && forall j :: 0 <= j < i ==> lib.strptime(text, formats[j]).None?
  {
    if formats != [] && lib.strptime(text, formats[0]).None? {
      var rest := formats[1..];
      FirstMatchPrecedence(text, rest, lib);
      if FirstMatch(text, rest, lib).Some? {
        var i :| 0 <= i < |rest| && FirstMatch(text, rest, lib) == lib.strptime(text, rest[i])
          && forall j :: 0 <= j < i ==> lib.strptime(text, rest[j]).None?;
        assert forall j :: 0 <= j < i + 1 ==> lib.strptime(text, formats[j]).None? by {
          forall j | 0 <= j < i + 1 ensures lib.strptime(text, formats[j]).None? {
            if j > 0 { assert formats[j] == rest[j - 1]; }
          }
        }
        assert FirstMatch(text, formats, lib) == lib.strptime(text, formats[i + 1]);
      }
      forall i | 0 <= i < |formats| && FirstMatch(text, formats, lib).None?
        ensures lib.strptime(text, formats[i]).None?
      {
        if i > 0 { assert formats[i] == rest[i - 1]; }
      }
    }
  }

  /** The inner loop: try each `published_at` format on the first 25 characters. */
  method ParsePublished(published: string, lib: DateLib) returns (date: Option<int>)
    ensures date == FirstMatch(Head(published, 25), PublishedFormats, lib)
  {
    var text := Head(published, 25);
    var i := 0;
    while i < |PublishedFormats|
      invariant 0 <= i <= |PublishedFormats|
      invariant FirstMatch(text, PublishedFormats[i..], lib) == FirstMatch(text, PublishedFormats, lib)
    {
      var parsed := lib.strptime(text, PublishedFormats[i]);
      if parsed.Some? {
        return parsed;
      }
      assert PublishedFormats[i..][1..] == PublishedFormats[i + 1..];
      i := i + 1;
    }
    date := None;
  }

  /** Python's `s.split("-")[0]`: everything before the first dash. */
  function BeforeDash(s: string): (r: string)
    ensures r <= s && '-' !in r
    ensures |r| < |s| ==> s[|r|] == '-'
  {
    if s == [] || s[0] == '-' then [] else [s[0]] + BeforeDash(s[1..])
  }

  /** The date `published_at` gives, if it is present, non-empty and matches a format. */
  function PublishedDate(f: map<string, string>, lib: DateLib): (d: Option<int>)
    ensures d.Some? ==> "published_at" in f && f["published_at"] != ""
    ensures d.Some? ==> exists i :: 0 <= i < |PublishedFormats| && lib.strptime(Head(f["published_at"], 25), PublishedFormats[i]) == d
  {
    if "published_at" in f && f["published_at"] != "" then
      FirstMatch(Head(f["published_at"], 25), PublishedFormats, lib)
    else None
  }

  /** The fallback: the integer before the first dash of `id`, read as a Unix timestamp. */
  function IdDate(f: map<string, string>, lib: DateLib): (d: Option<int>)
    ensures d.Some? <==> ("id" in f && lib.toInt(BeforeDash(f["id"])).Some?
      && lib.fromTimestamp(lib.toInt(BeforeDash(f["id"])).value).Some?)
  {
    if "id" !in f then None
    else match lib.toInt(BeforeDash(f["id"]))
      case None => None
      case Some(secs) => lib.fromTimestamp(secs)
  }

  /** The date the retention filter uses: `published_at` first, the id only when no format matched. */
  function ArticleDate(f: map<string, string>, lib: DateLib): (d: Option<int>)
    ensures PublishedDate(f, lib).Some? ==> d == PublishedDate(f, lib)
    ensures PublishedDate(f, lib).None? ==> d == IdDate(f, lib)
  {
    var p := PublishedDate(f, lib);
    if p.Some? then p else IdDate(f, lib)
  }

  /** Whether the filter keeps an entry: anything it cannot date, or dated at or after `cutoff`. */
  predicate Keep(e: Entry, cutoff: int, lib: DateLib)
  {
    match e
    case NonDict => true
    case Dict(f) => var d := ArticleDate(f, lib); !(d.Some? && d.value < cutoff)
  }

  // ---------------------------------------------------------------------------
  // The retention filter
  // ---------------------------------------------------------------------------

  /** The entries the filter keeps, in their original order. */
  function Cleaned(articles: seq<Entry>, cutoff: int, lib: DateLib): (r: seq<Entry>)
    ensures |r| <= |articles|
  {
    if articles == [] then []
    else
      var last := articles[|articles| - 1];
      Cleaned(articles[..|articles| - 1], cutoff, lib) + (if Keep(last, cutoff, lib) then [last] else [])
  }

  /** The positions the filter keeps, in increasing order. */
  function KeptPositions(articles: seq<Entry>, cutoff: int, lib: DateLib): (ps: seq<nat>)
  {
    if articles == [] then []
    else
      var n := |articles| - 1;
      KeptPositions(articles[..n], cutoff, lib) + (if Keep(articles[n], cutoff, lib) then [n] else [])
  }

  /** `Cleaned` is the order-preserving subsequence of the input at `KeptPositions`. */
  lemma {:induction false} CleanedIsSubsequence(articles: seq<Entry>, cutoff: int, lib: DateLib)
    ensures var r, ps := Cleaned(articles, cutoff, lib), KeptPositions(articles, cutoff, lib);
      && |ps| == |r|
      && (forall i :: 0 <= i < |ps| ==> ps[i] < |articles| && r[i] == articles[ps[i]])
      && (forall i, j :: 0 <= i < j < |ps| ==> ps[i] < ps[j])
  {
    if articles != [] {
      var n := |articles| - 1;
      var init := articles[..n];
      CleanedIsSubsequence(init, cutoff, lib);
      var r, ps := Cleaned(articles, cutoff, lib), KeptPositions(articles, cutoff, lib);
      var r0, ps0 := Cleaned(init, cutoff, lib), KeptPositions(init, cutoff, lib);
      assert forall i :: 0 <= i < |ps0| ==> ps[i] == ps0[i] && r[i] == r0[i] && articles[ps0[i]] == init[ps0[i]];
    }
  }

  /** A position is kept exactly when its entry passes `Keep`. */
  lemma {:induction false} KeptPositionsExact(articles: seq<Entry>, cutoff: int, lib: DateLib, p: nat)
    requires p < |articles|
    ensures p in KeptPositions(articles, cutoff, lib) <==> Keep(articles[p], cutoff, lib)
  {
    var n := |articles| - 1;
    var init := articles[..n];
    KeptPositionsBound(init, cutoff, lib);
    if p < n {
      KeptPositionsExact(init, cutoff, lib, p);
      assert articles[p] == init[p];
    }
  }

  lemma {:induction false} KeptPositionsBound(articles: seq<Entry>, cutoff: int, lib: DateLib)
    ensures forall i :: 0 <= i < |KeptPositions(articles, cutoff, lib)| ==> KeptPositions(articles, cutoff, lib)[i] < |articles|
  {
    if articles != [] {
      KeptPositionsBound(articles[..|articles| - 1], cutoff, lib);
    }
  }

  /** An entry is dropped only if it was dated, and dated strictly before the cutoff. */
  lemma DroppedOnlyIfDatedBefore(e: Entry, cutoff: int, lib: DateLib)
    ensures !Keep(e, cutoff, lib) <==> e.Dict? && ArticleDate(e.fields, lib).Some? && ArticleDate(e.fields, lib).value < cutoff
  {
  }

  /** Filtering twice with the same cutoff gives what filtering once gives. */
  lemma {:induction false} CleanedIdempotent(articles: seq<Entry>, cutoff: int, lib: DateLib)
    ensures Cleaned(Cleaned(articles, cutoff, lib), cutoff, lib) == Cleaned(articles, cutoff, lib)
  {
    if articles != [] {
      var n := |articles| - 1;
      var once := Cleaned(articles[..n], cutoff, lib);
      CleanedIdempotent(articles[..n], cutoff, lib);
      assert Cleaned(articles, cutoff, lib) == once + (if Keep(articles[n], cutoff, lib) then [articles[n]] else []);
      if Keep(articles[n], cutoff, lib) {
        var r := once + [articles[n]];
        assert r[..|r| - 1] == once && r[|r| - 1] == articles[n];
        assert Cleaned(r, cutoff, lib) == Cleaned(once, cutoff, lib) + [articles[n]];
        assert Cleaned(articles, cutoff, lib) == r;
      } else {
        assert Cleaned(articles, cutoff, lib) == once;
      }
    }
  }

  /** The dating steps of the filter for one stored object: `published_at` first, then the id. */
  method DateArticle(f: map<string, string>, lib: DateLib) returns (pubDate: Option<int>)
    ensures pubDate == ArticleDate(f, lib)
  {
    pubDate := None;
    if "published_at" in f && f["published_at"] != "" {
      pubDate := ParsePublished(f["published_at"], lib);
    }
    if pubDate.None? && "id" in f {
      var secs := lib.toInt(BeforeDash(f["id"]));
      if secs.Some? {
        pubDate := lib.fromTimestamp(secs.value);
      }
    }
  }

  /** `cleanup_old_articles`: the kept entries and how many were removed. */
  method CleanupOldArticles(articles: seq<Entry>, now: int, days: int, lib: DateLib)
    returns (cleaned: seq<Entry>, removedCount: nat)
    ensures cleaned == Cleaned(articles, now - days * SecondsPerDay, lib)
    ensures removedCount + |cleaned| == |articles|
  {
    var cutoff := now - days * SecondsPerDay;
    cleaned, removedCount := [], 0;
    for i := 0 to |articles|
      invariant cleaned == Cleaned(articles[..i], cutoff, lib)
      invariant removedCount + |cleaned| == i
    {
      assert articles[..i + 1][..i] == articles[..i];
      var article := articles[i];
      if article.NonDict? {
        cleaned := cleaned + [article];  // `.get` raises: kept by the outer handler
      } else {
        var pubDate := DateArticle(article.fields, lib);
        if pubDate.Some? && pubDate.value < cutoff {
          removedCount := removedCount + 1;
        } else {
          cleaned := cleaned + [article];
        }
      }
    }
    assert articles[..|articles|] == articles;
  }

  // ---------------------------------------------------------------------------
  // Ids of new records
  // ---------------------------------------------------------------------------

  function Digit(d: nat): (c: char)
    requires d < 10
    ensures '0' <= c <= '9'
  {
    ('0' as int + d) as char
  }

  /** Python's `str(n)` for a natural number. */
  function Decimal(n: nat): (s: string)
    ensures |s| > 0 && forall i :: 0 <= i < |s| ==> '0' <= s[i] <= '9'
    ensures n >= 10 ==> |s| >= 2
  {
    if n < 10 then [Digit(n)] else Decimal(n / 10) + [Digit(n % 10)]
  }

  /** Different numbers print differently. */
  lemma {:induction false} DecimalInjective(a: nat, b: nat)
    requires Decimal(a) == Decimal(b)
    ensures a == b
  {
    if a >= 10 && b >= 10 {
      var sa, sb := Decimal(a), Decimal(b);
      assert sa[..|sa| - 1] == Decimal(a / 10) && sb[..|sb| - 1] == Decimal(b / 10);
      DecimalInjective(a / 10, b / 10);
      assert Digit(a % 10) == sa[|sa| - 1] == sb[|sb| - 1] == Digit(b % 10);
    } else if a < 10 && b < 10 {
      assert Digit(a) == Decimal(a)[0];
    }
  }

  /** `str(int(time.time())) + f"-{idx}"`. */
  function MakeId(secs: nat, idx: nat): (id: string)
    ensures BeforeDash(id) == Decimal(secs)
  {
    BeforeDashOfJoin(Decimal(secs), Decimal(idx));
    Decimal(secs) + "-" + Decimal(idx)
  }

  /** Splitting `x + "-" + y` at its first dash gives back `x` when `x` has no dash. */
  lemma {:induction false} BeforeDashOfJoin(x: string, y: string)
    requires '-' !in x
    ensures BeforeDash(x + "-" + y) == x
  {
    if x != [] {
      assert (x + "-" + y)[1..] == x[1..] + "-" + y;
      BeforeDashOfJoin(x[1..], y);
    }
  }

  /** A dash-free string, a dash and another string split back at that dash. */
  lemma SplitAtDash(x1: string, y1: string, x2: string, y2: string)
    requires '-' !in x1 && '-' !in x2
    requires x1 + "-" + y1 == x2 + "-" + y2
    ensures x1 == x2 && y1 == y2
  {
    var s := x1 + "-" + y1;
    assert s[|x1|] == '-' && s[|x2|] == '-';
    assert |x1| == |x2| by {
      assert forall i :: 0 <= i < |x1| ==> s[i] == x1[i];
      assert forall i :: 0 <= i < |x2| ==> s[i] == x2[i];
    }
    assert s[..|x1|] == x1 && s[..|x2|] == x2;
    assert s[|x1| + 1..] == y1 && s[|x2| + 1..] == y2;
  }

  /** Ids made for different positions differ, whatever the clock read. */
  lemma MakeIdDistinct(secs1: nat, idx1: nat, secs2: nat, idx2: nat)
    ensures MakeId(secs1, idx1) == MakeId(secs2, idx2) ==> idx1 == idx2 && secs1 == secs2
  {
    if MakeId(secs1, idx1) == MakeId(secs2, idx2) {
      var x1, x2 := Decimal(secs1), Decimal(secs2);
      assert '-' !in x1 && '-' !in x2;
      SplitAtDash(x1, Decimal(idx1), x2, Decimal(idx2));
      DecimalInjective(idx1, idx2);
      DecimalInjective(secs1, secs2);
    }
  }

  // ---------------------------------------------------------------------------
  // New records
  // ---------------------------------------------------------------------------

  /** `d.get(key, default)`. */
  function GetOr(d: map<string, string>, key: string, default: string): (v: string)
  {
    if key in d then d[key] else default
  }

  /** The AI result is used when it is a non-empty object (`if rewritten:`). */
  predicate Usable(rewritten: Option<map<string, string>>)
  {
    rewritten.Some? && |rewritten.value| > 0
  }

  /** The stored record built from a scraped item and its rewrite. */
  function MakeRecord(item: Scraped, rewritten: map<string, string>, id: string): (f: map<string, string>)
    ensures "id" in f && f["id"] == id
    ensures "original_url" in f && f["original_url"] == item.originalUrl
  {
    map[
      "id" := id,
      "title" := GetOr(rewritten, "title", item.originalTitle),
      "summary" := GetOr(rewritten, "summary", ""),
      "content" := GetOr(rewritten, "content", item.content),
      "original_url" := item.originalUrl,
      "image_url" := item.imageUrl,
      "source" := item.originalSource,
      "published_at" := item.publishedAt,
      "category" := GetOr(rewritten, "category", "MACRO")]
  }

  /** What the record-building loop has produced after the first `n` new items. */
  function Processed(newItems: seq<Scraped>, ai: nat -> Option<map<string, string>>, clock: nat -> nat, n: nat): (r: seq<Entry>)
    requires n <= |newItems|
    ensures |r| <= n
  {
    if n == 0 then []
    else
      var k := n - 1;
      Processed(newItems, ai, clock, k)
        + (if Usable(ai(k)) then [RecordAt(newItems, ai, clock, k)] else [])
  }

  /** The record `Processed` makes from item `k`. */
  function RecordAt(newItems: seq<Scraped>, ai: nat -> Option<map<string, string>>, clock: nat -> nat, k: nat): Entry
    requires k < |newItems| && Usable(ai(k))
  {
    Dict(MakeRecord(newItems[k], ai(k).value, MakeId(clock(k), k)))
  }

  /**
   * The records are exactly those of the items whose rewrite is usable: every record
   * comes from such an item, and every such item gives one.
   */
  lemma {:induction false} ProcessedMembers(newItems: seq<Scraped>, ai: nat -> Option<map<string, string>>, clock: nat -> nat, n: nat)
    requires n <= |newItems|
    ensures forall e :: e in Processed(newItems, ai, clock, n) <==>
      exists k :: 0 <= k < n && Usable(ai(k)) && e == RecordAt(newItems, ai, clock, k)
  {
    if n > 0 {
      ProcessedMembers(newItems, ai, clock, n - 1);
    }
  }

  /** The positions whose rewrite is usable, among the first `n`, in increasing order. */
  function UsablePositions(ai: nat -> Option<map<string, string>>, n: nat): (ps: seq<nat>)
  {
    if n == 0 then []
    else UsablePositions(ai, n - 1) + (if Usable(ai(n - 1)) then [n - 1] else [])
  }

  /** The usable positions are listed in strictly increasing order. */
  lemma {:induction false} UsablePositionsIncreasing(ai: nat -> Option<map<string, string>>, n: nat)
    ensures forall i :: 0 <= i < |UsablePositions(ai, n)| ==> UsablePositions(ai, n)[i] < n
    ensures forall i, j :: 0 <= i < j < |UsablePositions(ai, n)| ==> UsablePositions(ai, n)[i] < UsablePositions(ai, n)[j]
  {
    if n > 0 {
      UsablePositionsIncreasing(ai, n - 1);
      var ps, ps0 := UsablePositions(ai, n), UsablePositions(ai, n - 1);
      assert ps == ps0 + (if Usable(ai(n - 1)) then [n - 1] else []);
      assert forall i :: 0 <= i < |ps0| ==> ps[i] == ps0[i];
    }
  }

  /**
   * The records come in scrape order (with `UsablePositionsIncreasing`): record `i`
   * is built from the `i`-th item with a usable rewrite.
   */
  lemma {:induction false} ProcessedInOrder(newItems: seq<Scraped>, ai: nat -> Option<map<string, string>>, clock: nat -> nat, n: nat)
    requires n <= |newItems|
    ensures |UsablePositions(ai, n)| == |Processed(newItems, ai, clock, n)|
    ensures forall i :: 0 <= i < |UsablePositions(ai, n)| ==>
      UsablePositions(ai, n)[i] < n && Usable(ai(UsablePositions(ai, n)[i]))
      && Processed(newItems, ai, clock, n)[i] == RecordAt(newItems, ai, clock, UsablePositions(ai, n)[i])
  {
    if n > 0 {
      ProcessedInOrder(newItems, ai, clock, n - 1);
      var k := n - 1;
      var r, ps := Processed(newItems, ai, clock, n), UsablePositions(ai, n);
      var r0, ps0 := Processed(newItems, ai, clock, k), UsablePositions(ai, k);
      if Usable(ai(k)) {
        assert r == r0 + [RecordAt(newItems, ai, clock, k)] && ps == ps0 + [k];
      } else {
        assert r == r0 && ps == ps0;
      }
      forall i | 0 <= i < |ps|
        ensures ps[i] < n && Usable(ai(ps[i])) && r[i] == RecordAt(newItems, ai, clock, ps[i])
      {
        if i < |ps0| {
          assert r0[i] == RecordAt(newItems, ai, clock, ps0[i]);
          assert ps[i] == ps0[i] && r[i] == r0[i];
        } else {
          assert ps[i] == k && r[i] == RecordAt(newItems, ai, clock, k);
        }
      }
    }
  }

  /** When every rewrite is usable, one record per new item. */
  lemma {:induction false} ProcessedAllUsable(newItems: seq<Scraped>, ai: nat -> Option<map<string, string>>, clock: nat -> nat, n: nat)
    requires n <= |newItems|
    requires forall k :: 0 <= k < n ==> Usable(ai(k))
    ensures |Processed(newItems, ai, clock, n)| == n
  {
    if n > 0 {
      ProcessedAllUsable(newItems, ai, clock, n - 1);
      var prev := Processed(newItems, ai, clock, n - 1);
      assert Processed(newItems, ai, clock, n) == prev + [RecordAt(newItems, ai, clock, n - 1)];
      assert |prev + [RecordAt(newItems, ai, clock, n - 1)]| == |prev| + 1;
    }
  }

  /** `e.get("id")` of a record. */
  function IdOf(e: Entry): Option<string>
  {
    if e.Dict? && "id" in e.fields then Some(e.fields["id"]) else None
  }

  /** Every entry of `r` has an id, and no two have the same. */
  predicate IdsPresentAndDistinct(r: seq<Entry>)
  {
    && (forall i :: 0 <= i < |r| ==> IdOf(r[i]).Some?)
    && (forall i, j :: 0 <= i < j < |r| ==> IdOf(r[i]) != IdOf(r[j]))
  }

  /** The ids of the records made in one run are present and pairwise distinct. */
  lemma {:induction false} ProcessedIdsDistinct(newItems: seq<Scraped>, ai: nat -> Option<map<string, string>>, clock: nat -> nat, n: nat)
    requires n <= |newItems|
    ensures IdsPresentAndDistinct(Processed(newItems, ai, clock, n))
  {
    if n > 0 {
      var k := n - 1;
      var prev := Processed(newItems, ai, clock, k);
      ProcessedIdsDistinct(newItems, ai, clock, k);
      ProcessedMembers(newItems, ai, clock, k);
      var r := Processed(newItems, ai, clock, n);
      if Usable(ai(k)) {
        var last := RecordAt(newItems, ai, clock, k);
        assert r == prev + [last];
        assert IdOf(last) == Some(MakeId(clock(k), k));
        forall i | 0 <= i < |prev| ensures IdOf(prev[i]) != IdOf(last) {
          assert prev[i] in prev;
          var m :| 0 <= m < k && Usable(ai(m)) && prev[i] == RecordAt(newItems, ai, clock, m);
          assert IdOf(prev[i]) == Some(MakeId(clock(m), m));
          MakeIdDistinct(clock(m), m, clock(k), k);
        }
      }
    }
  }

  /** A record's title and category fall back to the scraped title and "MACRO" when the rewrite lacks them. */
  lemma RecordFallbacks(item: Scraped, rewritten: map<string, string>, id: string)
    ensures var f := MakeRecord(item, rewritten, id);
      && f.Keys == {"id", "title", "summary", "content", "original_url", "image_url", "source", "published_at", "category"}
      && f["image_url"] == item.imageUrl && f["source"] == item.originalSource && f["published_at"] == item.publishedAt
      && f["title"] == (if "title" in rewritten then rewritten["title"] else item.originalTitle)
      && f["category"] == (if "category" in rewritten then rewritten["category"] else "MACRO")
      && f["summary"] == (if "summary" in rewritten then rewritten["summary"] else "")
      && f["content"] == (if "content" in rewritten then rewritten["content"] else item.content)
  {
  }

  /** The record-building loop of `main`. */
  method BuildProcessed(newItems: seq<Scraped>, ai: nat -> Option<map<string, string>>, clock: nat -> nat)
    returns (processed: seq<Entry>)
    ensures processed == Processed(newItems, ai, clock, |newItems|)
  {
    processed := [];
    for idx := 0 to |newItems|
      invariant processed == Processed(newItems, ai, clock, idx)
    {
      var rewritten := ai(idx);
      if rewritten.Some? && |rewritten.value| > 0 {
        var id := MakeId(clock(idx), idx);
        processed := processed + [Dict(MakeRecord(newItems[idx], rewritten.value, id))];
      }
    }
  }

  // ---------------------------------------------------------------------------
  // De-duplication and the whole run
  // ---------------------------------------------------------------------------

  /** `a.get("original_url")` of a stored dict. */
  function UrlOf(f: map<string, string>): Option<string>
  {
    if "original_url" in f then Some(f["original_url"]) else None
  }

  /** `existing_urls`; defined when every retained entry is a dict (otherwise `.get` raises). */
  function ExistingUrls(existing: seq<Entry>): (urls: set<Option<string>>)
    requires forall i :: 0 <= i < |existing| ==> existing[i].Dict?
    ensures forall u :: u in urls <==> exists i :: 0 <= i < |existing| && UrlOf(existing[i].fields) == u
  {
    set i | 0 <= i < |existing| :: UrlOf(existing[i].fields)
  }

  /** `new_articles`: the scraped items whose URL is not stored, in scrape order. */
  function NewArticles(raw: seq<Scraped>, urls: set<Option<string>>): (r: seq<Scraped>)
    ensures |r| <= |raw|
    ensures forall i :: 0 <= i < |r| ==> Some(r[i].originalUrl) !in urls
    ensures forall x :: x in r <==> x in raw && Some(x.originalUrl) !in urls
  {
    if raw == [] then []
    else
      var n := |raw| - 1;
      assert raw == raw[..n] + [raw[n]];
      NewArticles(raw[..n], urls) + (if Some(raw[n].originalUrl) !in urls then [raw[n]] else [])
  }

  /** The positions of the scraped items `NewArticles` selects, in increasing order. */
  function SelectedPositions(raw: seq<Scraped>, urls: set<Option<string>>): (ps: seq<nat>)
  {
    if raw == [] then []
    else
      var n := |raw| - 1;
      SelectedPositions(raw[..n], urls) + (if Some(raw[n].originalUrl) !in urls then [n] else [])
  }

  lemma {:induction false} SelectedPositionsBound(raw: seq<Scraped>, urls: set<Option<string>>)
    ensures forall i :: 0 <= i < |SelectedPositions(raw, urls)| ==> SelectedPositions(raw, urls)[i] < |raw|
  {
    if raw != [] {
      SelectedPositionsBound(raw[..|raw| - 1], urls);
    }
  }

  /**
   * `NewArticles` is the input at `SelectedPositions`: scrape order is kept, and so
   * is every repeat of an item, since positions rather than items are selected.
   */
  lemma {:induction false} NewArticlesIsSubsequence(raw: seq<Scraped>, urls: set<Option<string>>)
    ensures var r, ps := NewArticles(raw, urls), SelectedPositions(raw, urls);
      && |ps| == |r|
      && (forall i :: 0 <= i < |ps| ==> ps[i] < |raw| && r[i] == raw[ps[i]])
      && (forall i, j :: 0 <= i < j < |ps| ==> ps[i] < ps[j])
  {
    if raw != [] {
      var n := |raw| - 1;
      var init := raw[..n];
      NewArticlesIsSubsequence(init, urls);
      var r, ps := NewArticles(raw, urls), SelectedPositions(raw, urls);
      var r0, ps0 := NewArticles(init, urls), SelectedPositions(init, urls);
      assert forall i :: 0 <= i < |ps0| ==> raw[ps0[i]] == init[ps0[i]];
      if Some(raw[n].originalUrl) !in urls {
        assert r == r0 + [raw[n]] && ps == ps0 + [n];
      } else {
        assert r == r0 && ps == ps0;
      }
    }
  }

  /** A scraped position is selected exactly when its URL is not stored. */
  lemma {:induction false} SelectedPositionsExact(raw: seq<Scraped>, urls: set<Option<string>>, p: nat)
    requires p < |raw|
    ensures p in SelectedPositions(raw, urls) <==> Some(raw[p].originalUrl) !in urls
  {
    var n := |raw| - 1;
    var init := raw[..n];
    SelectedPositionsBound(init, urls);
    if p < n {
      SelectedPositionsExact(init, urls, p);
      assert raw[p] == init[p];
    }
  }

  /** The list `main` writes back: new records first, then the retained ones. */
  method RunPipeline(
    loaded: seq<Entry>, raw: seq<Scraped>, now: int,
    ai: nat -> Option<map<string, string>>, clock: nat -> nat, lib: DateLib)
    returns (outcome: RunOutcome)
    ensures var existing := Cleaned(loaded, now - RetentionDays * SecondsPerDay, lib);
      && (outcome.Crashed? <==> exists i :: 0 <= i < |existing| && existing[i].NonDict?)
      && (outcome.Saved? ==>
            var newItems := NewArticles(raw, ExistingUrls(existing));
            outcome.articles == Processed(newItems, ai, clock, |newItems|) + existing)
  {
    var existing, removed := CleanupOldArticles(loaded, now, RetentionDays, lib);
    var i := 0;
    while i < |existing|
      invariant 0 <= i <= |existing|
      invariant forall j :: 0 <= j < i ==> existing[j].Dict?
    {
      if existing[i].NonDict? {
        return Crashed;
      }
      i := i + 1;
    }
    var urls := ExistingUrls(existing);
    var newItems := NewArticles(raw, urls);
    if |newItems| == 0 {
      return Saved(existing);
    }
    var processed := BuildProcessed(newItems, ai, clock);
    outcome := Saved(processed + existing);
  }

  /** No saved new record repeats the URL of a retained article. */
  lemma {:induction false} SavedRecordsAreNew(
    loaded: seq<Entry>, raw: seq<Scraped>, cutoff: int,
    ai: nat -> Option<map<string, string>>, clock: nat -> nat, lib: DateLib, e: Entry)
    requires var existing := Cleaned(loaded, cutoff, lib);
      forall i :: 0 <= i < |existing| ==> existing[i].Dict?
    requires var newItems := NewArticles(raw, ExistingUrls(Cleaned(loaded, cutoff, lib)));
      e in Processed(newItems, ai, clock, |newItems|)
    ensures e.Dict? && "original_url" in e.fields
    ensures UrlOf(e.fields) !in ExistingUrls(Cleaned(loaded, cutoff, lib))
  {
    var urls := ExistingUrls(Cleaned(loaded, cutoff, lib));
    var newItems := NewArticles(raw, urls);
    ProcessedMembers(newItems, ai, clock, |newItems|);
    var k :| 0 <= k < |newItems| && Usable(ai(k)) && e == RecordAt(newItems, ai, clock, k);
    RecordFallbacks(newItems[k], ai(k).value, MakeId(clock(k), k));
  }
}
