/**
  The `download-data` transform (gulpfile.babel.js:252-341): spreadsheet rows
  become the slug-keyed `words` collection, with related words resolved, a
  cyclic previous/next ring over the alphabetical slug order and a few derived
  fields, plus the two-entry `homewords` selection. The files the source
  writes are returned instead.

  The transform is stated for any slug function `slugify`; `DownloadData`
  runs it with `Slugs.Slugify`. None of its properties depends on how a slug
  is computed, only on every name having exactly one.
*/
module Words {
  import opened Wrappers
  import opened JsValues
  import opened Slugs
  import opened Ordering

  /** One downloaded spreadsheet row: the fields the build reads. */
  datatype Row = Row(
    word: string,
    relatedwords: seq<string>,
    submissiondate: Field,
    wordid: Field,
    definition: Field,
    usageexample: Field,
    lucycommentary: Field,
    perpetrator: Field,
    usagesource: Field,
    sourceurl: Field,
    commenturl: Field)

  /** A `{slug, word}` pointer to another entry. */
  datatype Ref = Ref(slug: string, word: string)

  /** An entry of `words.json`: the row's fields with the derived ones added or replaced. */
  datatype Record = Record(
    word: string,
    slug: string,
    relatedwords: seq<Ref>,
    previousWord: Ref,
    nextWord: Ref,
    showPerpetratorData: bool,  // `true`, or `null` when false
    wordid: Field,
    formatteddate: string,
    pubdate: string,
    tweettextrss: string,
    tweettexturi: string,
    submissiondate: Field,
    definition: Field,
    usageexample: Field,
    lucycommentary: Field,
    perpetrator: Field,
    usagesource: Field,
    sourceurl: Field,
    commenturl: Field)

  /** A JSON object of entries: its keys in their order, and the entry under each key. */
  datatype WordCollection = WordCollection(keys: seq<string>, entries: map<string, Record>) {
    predicate Valid() {
      && Distinct(keys)
      && (forall s :: s in entries ==> s in keys)
      && (forall s :: s in keys ==> s in entries)
    }
  }

  /** The contents of `words.json` and `homewords.json`. */
  datatype Derived = Derived(words: WordCollection, homewords: WordCollection)

  /** `new Error('Already exists: ' + slug)`. */
  datatype Error = AlreadyExists(slug: string)

  /**
    The library routines the build calls and this model does not define:
    Handlebars' `{{…}}` escaping (also behind `htmlEntities`), `encodeURI`,
    `new Date(submissiondate)` as a comparable number, and the two
    `php.date(…, php.strtotime(submissiondate))` formats.
  */
  datatype Externals = Externals(
    escape: string -> string,
    encodeUri: string -> string,
    dateKey: Field -> int,
    longDate: Field -> string,
    rfcDate: Field -> string)

  const SiteUrl := "https://ig.ft.com/sites/guffipedia/"

  /** `row.slug = slugify(row.word)`. */
  function SlugOf(slugify: string -> string, row: Row): string {
    slugify(row.word)
  }

  /** The rows' slugs in row order: `Object.keys(words)` once every row is in. */
  function SlugList(slugify: string -> string, rows: seq<Row>): (r: seq<string>)
    ensures |r| == |rows| && forall i :: 0 <= i < |rows| ==> r[i] == SlugOf(slugify, rows[i])
  {
    seq(|rows|, i requires 0 <= i < |rows| => SlugOf(slugify, rows[i]))
  }

  predicate SlugsDistinct(slugify: string -> string, rows: seq<Row>) {
    forall i, j :: 0 <= i < j < |rows| ==> SlugOf(slugify, rows[i]) != SlugOf(slugify, rows[j])
  }

  /** The slug of the first row whose slug is in `seen` or belongs to an earlier row. */
  function FirstRepeat(slugify: string -> string, rows: seq<Row>, seen: set<string>): Option<string> {
    if rows == [] then None
    else if SlugOf(slugify, rows[0]) in seen then Some(SlugOf(slugify, rows[0]))
    else FirstRepeat(slugify, rows[1..], seen + {SlugOf(slugify, rows[0])})
  }

  lemma FirstRepeatStep(slugify: string -> string, rows: seq<Row>, seen: set<string>)
    requires rows != []
    ensures FirstRepeat(slugify, rows, seen) ==
      if SlugOf(slugify, rows[0]) in seen then Some(SlugOf(slugify, rows[0]))
      else FirstRepeat(slugify, rows[1..], seen + {SlugOf(slugify, rows[0])})
  {
  }

  /** No repeat is found exactly when the slugs are distinct and none was seen before. */
  lemma {:induction false} FirstRepeatNone(slugify: string -> string, rows: seq<Row>, seen: set<string>)
    ensures FirstRepeat(slugify, rows, seen) == None
        <==> SlugsDistinct(slugify, rows) && forall i :: 0 <= i < |rows| ==> SlugOf(slugify, rows[i]) !in seen
  {
    if rows != [] {
      var head := SlugOf(slugify, rows[0]);
      FirstRepeatNone(slugify, rows[1..], seen + {head});
      assert forall i :: 1 <= i < |rows| ==> rows[i] == rows[1..][i - 1];
    }
  }

  /** A reported repeat is the slug of a row that an earlier row, or `seen`, already had. */
  lemma {:induction false} FirstRepeatWitness(slugify: string -> string, rows: seq<Row>, seen: set<string>, slug: string)
    requires FirstRepeat(slugify, rows, seen) == Some(slug)
    ensures exists j :: 0 <= j < |rows| && SlugOf(slugify, rows[j]) == slug &&
                        (slug in seen || exists i :: 0 <= i < j && SlugOf(slugify, rows[i]) == slug)
  {
    var head := SlugOf(slugify, rows[0]);
    if head !in seen {
      FirstRepeatWitness(slugify, rows[1..], seen + {head}, slug);
      var j :| 0 <= j < |rows[1..]| && SlugOf(slugify, rows[1..][j]) == slug &&
               (slug in seen + {head} || exists i :: 0 <= i < j && SlugOf(slugify, rows[1..][i]) == slug);
      assert SlugOf(slugify, rows[j + 1]) == slug;
      if slug !in seen {
        if slug == head {
          assert SlugOf(slugify, rows[0]) == slug;
        } else {
          var i :| 0 <= i < j && SlugOf(slugify, rows[1..][i]) == slug;
          assert SlugOf(slugify, rows[i + 1]) == slug;
        }
      }
    }
  }

  /** The `words` table after the first loop: every row under its slug, a later row replacing an earlier one. */
  function Table(slugify: string -> string, rows: seq<Row>): map<string, Row> {
    if rows == [] then map[]
    else Table(slugify, rows[..|rows| - 1])[SlugOf(slugify, rows[|rows| - 1]) := rows[|rows| - 1]]
  }

  lemma TableSnoc(slugify: string -> string, rows: seq<Row>, row: Row)
    ensures Table(slugify, rows + [row]) == Table(slugify, rows)[SlugOf(slugify, row) := row]
    ensures SlugList(slugify, rows + [row]) == SlugList(slugify, rows) + [SlugOf(slugify, row)]
  {
    assert (rows + [row])[..|rows|] == rows;
  }

  /** The table holds each row's slug and nothing else, each key under a row with that slug. */
  lemma {:induction false} TableFacts(slugify: string -> string, rows: seq<Row>)
    ensures forall s :: s in Table(slugify, rows) ==> SlugOf(slugify, Table(slugify, rows)[s]) == s
    ensures forall i :: 0 <= i < |rows| ==> SlugOf(slugify, rows[i]) in Table(slugify, rows)
    ensures forall s :: s in Table(slugify, rows) ==> exists i :: 0 <= i < |rows| && SlugOf(slugify, rows[i]) == s
  {
    if rows != [] {
      var front := rows[..|rows| - 1];
      assert forall i :: 0 <= i < |front| ==> front[i] == rows[i];
      TableFacts(slugify, front);
    }
  }

  /** With distinct slugs, every row is found under its own slug. */
  lemma {:induction false} TableEntries(slugify: string -> string, rows: seq<Row>)
    requires SlugsDistinct(slugify, rows)
    ensures forall i :: 0 <= i < |rows| ==>
      SlugOf(slugify, rows[i]) in Table(slugify, rows) && Table(slugify, rows)[SlugOf(slugify, rows[i])] == rows[i]
  {
    TableFacts(slugify, rows);
    if rows != [] {
      var front := rows[..|rows| - 1];
      assert forall i :: 0 <= i < |front| ==> front[i] == rows[i];
      assert SlugsDistinct(slugify, front);
      TableEntries(slugify, front);
      TableFacts(slugify, front);
    }
  }

  /** `indexOf`: the first position of `x` in `s`, or -1. */
  function IndexOf(s: seq<string>, x: string): (r: int)
    ensures -1 <= r < |s|
    ensures r == -1 <==> x !in s
    ensures r >= 0 ==> s[r] == x && forall k :: 0 <= k < r ==> s[k] != x
  {
    if s == [] then -1
    else if s[0] == x then 0
    else
      var k := IndexOf(s[1..], x);
      if k < 0 then -1 else k + 1
  }

  /** The position before `i` on a ring of `n` positions: `i - 1`, or the last one from the first. */
  function PrevPos(i: int, n: int): int {
    if i > 0 then i - 1 else n - 1
  }

  /** The position after `i` on a ring of `n` positions: `i + 1`, or the first one from the last. */
  function NextPos(i: int, n: int): int {
    if i < n - 1 then i + 1 else 0
  }

  /** Position of the previous slug in the ring (gulpfile.babel.js:290-294). */
  function PreviousIndex(slugIndex: seq<string>, slug: string): int {
    PrevPos(IndexOf(slugIndex, slug), |slugIndex|)
  }

  /** Position of the next slug in the ring (gulpfile.babel.js:301-305). */
  function NextIndex(slugIndex: seq<string>, slug: string): int {
    NextPos(IndexOf(slugIndex, slug), |slugIndex|)
  }

  /** In a list without repeats, `indexOf` finds each element at its own position. */
  lemma IndexOfDistinct(slugIndex: seq<string>, i: int)
    requires Distinct(slugIndex) && 0 <= i < |slugIndex|
    ensures IndexOf(slugIndex, slugIndex[i]) == i
  {
  }

  /** Stepping forward then back, or back then forward, on the ring returns to the start. */
  lemma RingStepsInverse(i: int, n: int)
    requires 0 <= i < n
    ensures 0 <= PrevPos(i, n) < n && 0 <= NextPos(i, n) < n
    ensures PrevPos(NextPos(i, n), n) == i && NextPos(PrevPos(i, n), n) == i
  {
  }


  /** `{slug: words[key].slug, word: words[key].word}`. */
  function Pointer(slugify: string -> string, words: map<string, Row>, key: string): Ref
    requires key in words
  {
    Ref(SlugOf(slugify, words[key]), words[key].word)
  }

  /** One step of `relatedwords.map(…)`: the pointer to the named entry, or `undefined`. */
  function Lookup(slugify: string -> string, words: map<string, Row>, name: string): Option<Ref> {
    var slug := slugify(name);
    if slug in words then Some(Ref(slug, words[slug].word)) else None
  }

  /** `relatedwords.map(…)`: one lookup per name, in order. */
  function LookupAll(slugify: string -> string, words: map<string, Row>, names: seq<string>): seq<Option<Ref>> {
    if names == [] then [] else [Lookup(slugify, words, names[0])] + LookupAll(slugify, words, names[1..])
  }

  /** `.filter(Boolean)`: the defined pointers, in order. */
  function Present(xs: seq<Option<Ref>>): seq<Ref> {
    if xs == [] then [] else (if xs[0].Some? then [xs[0].value] else []) + Present(xs[1..])
  }

  /** Related-word names resolved through the table; names that do not resolve are dropped. */
  function Resolve(slugify: string -> string, names: seq<string>, words: map<string, Row>): seq<Ref> {
    Present(LookupAll(slugify, words, names))
  }

  /** No names resolve to no pointers. */
  lemma ResolveEmpty(slugify: string -> string, words: map<string, Row>)
    ensures Resolve(slugify, [], words) == []
  {
  }

  /**
    Resolving one more name appends its pointer when its slug is in the table and
    nothing otherwise; with `ResolveEmpty` this fixes `Resolve` on every list.
  */
  lemma {:induction false} ResolveAppend(slugify: string -> string, names: seq<string>, name: string, words: map<string, Row>)
    ensures Resolve(slugify, names + [name], words) == Resolve(slugify, names, words) +
      (if slugify(name) in words then [Ref(slugify(name), words[slugify(name)].word)] else [])
  {
    if names == [] {
      assert [name][1..] == [];
    } else {
      assert (names + [name])[1..] == names[1..] + [name];
      ResolveAppend(slugify, names[1..], name, words);
    }
  }

  /** Every pointer kept names a table entry, carries that entry's word, and comes from one of the names. */
  lemma {:induction false} ResolveSound(slugify: string -> string, names: seq<string>, words: map<string, Row>)
    ensures |Resolve(slugify, names, words)| <= |names|
    ensures forall r :: r in Resolve(slugify, names, words) ==>
      r.slug in words && r.word == words[r.slug].word && exists n :: n in names && slugify(n) == r.slug
  {
    if names != [] {
      ResolveSound(slugify, names[1..], words);
      assert forall n :: n in names[1..] ==> n in names;
    }
  }

  /** When every name resolves, nothing is dropped: one pointer per name, in order. */
  lemma {:induction false} ResolveAllKnown(slugify: string -> string, names: seq<string>, words: map<string, Row>)
    requires forall n :: n in names ==> slugify(n) in words
    ensures |Resolve(slugify, names, words)| == |names|
    ensures forall k :: 0 <= k < |names| ==>
      Resolve(slugify, names, words)[k] == Ref(slugify(names[k]), words[slugify(names[k])].word)
  {
    if names != [] {
      assert forall n :: n in names[1..] ==> n in names;
      ResolveAllKnown(slugify, names[1..], words);
    }
  }

  /** When no name resolves, the list becomes empty, without an error. */
  lemma {:induction false} ResolveNoneKnown(slugify: string -> string, names: seq<string>, words: map<string, Row>)
    requires forall n :: n in names ==> slugify(n) !in words
    ensures Resolve(slugify, names, words) == []
  {
    if names != [] {
      assert forall n :: n in names[1..] ==> n in names;
      ResolveNoneKnown(slugify, names[1..], words);
    }
  }

  /** `perpetrator || usagesource ? true : null`. */
  function ShowPerpetratorData(row: Row): bool {
    Truthy(row.perpetrator) || Truthy(row.usagesource)
  }

  /** `s.substring(start, s.length)` for `start >= 0`: the arguments are swapped and clamped when `start` is past the end. */
  function SubstringFrom(s: string, start: nat): string {
    if start <= |s| then s[start..] else ""
  }

  /** A truthy `wordid` loses its first four characters. */
  function StripWordId(id: Field): Field {
    if Truthy(id) then Str(SubstringFrom(id.s, 4)) else id
  }

  /** A truthy id loses exactly its first four characters, or all of them when shorter; any other value is kept. */
  lemma StripWordIdLosesFour(id: Field)
    ensures Truthy(id) ==> StripWordId(id).Str? && |StripWordId(id).s| == if |id.s| < 4 then 0 else |id.s| - 4
    ensures Truthy(id) && |id.s| >= 4 ==> id.s == id.s[..4] + StripWordId(id).s
    ensures !Truthy(id) ==> StripWordId(id) == id
  {
  }

  /** The promotional text of gulpfile.babel.js:321: the quoted word, the crime number and the entry's address. */
  function TweetText(word: string, wordid: Field, slug: string): string {
    ("\U{201C}" + word + "\U{201D}") + (": Corporate language crime no. " + (Show(wordid) + (" " + (SiteUrl + slug))))
  }

  /** The tweet opens with the quoted word and ends with the entry's address, right after the printed id. */
  lemma TweetTextParts(word: string, wordid: Field, slug: string)
    ensures TweetText(word, wordid, slug)[..|word| + 2] == "\U{201C}" + word + "\U{201D}"
    ensures var t := TweetText(word, wordid, slug);
      t[|t| - |slug| - |SiteUrl| - |Show(wordid)| - 1..] == Show(wordid) + " " + SiteUrl + slug
  {
    var head := "\U{201C}" + word + "\U{201D}";
    var mid := ": Corporate language crime no. ";
    var tail := Show(wordid) + (" " + (SiteUrl + slug));
    var t := head + (mid + tail);
    assert TweetText(word, wordid, slug) == t;
    assert |head| == |word| + 2;
    assert t[..|head|] == head;
    assert t[|head|..] == mid + tail;
    assert (mid + tail)[|mid|..] == tail;
    assert t[|head| + |mid|..] == tail;
    assert tail == Show(wordid) + " " + SiteUrl + slug;
  }

  /** The finished entry for `row`, given the table and the sorted slug list. */
  function DeriveRecord(slugify: string -> string, row: Row, words: map<string, Row>, slugIndex: seq<string>,
                        ext: Externals): Record
    requires SlugOf(slugify, row) in slugIndex
    requires forall s :: s in slugIndex ==> s in words
  {
    var slug := SlugOf(slugify, row);
    var wordid := StripWordId(row.wordid);
    var tweet := TweetText(row.word, wordid, slug);
    Record(
      word := row.word,
      slug := slug,
      relatedwords := Resolve(slugify, row.relatedwords, words),
      previousWord := Pointer(slugify, words, slugIndex[PreviousIndex(slugIndex, slug)]),
      nextWord := Pointer(slugify, words, slugIndex[NextIndex(slugIndex, slug)]),
      showPerpetratorData := ShowPerpetratorData(row),
      wordid := wordid,
      formatteddate := ext.longDate(row.submissiondate),
      pubdate := ext.rfcDate(row.submissiondate),
      tweettextrss := ext.escape(tweet),
      tweettexturi := ext.encodeUri(tweet),
      submissiondate := row.submissiondate,
      definition := row.definition,
      usageexample := row.usageexample,
      lucycommentary := row.lucycommentary,
      perpetrator := row.perpetrator,
      usagesource := row.usagesource,
      sourceurl := row.sourceurl,
      commenturl := row.commenturl)
  }

  /** `slugIndex` lists exactly the table's slugs, and every row is stored under its own slug. */
  ghost predicate Indexed(slugify: string -> string, table: map<string, Row>, slugIndex: seq<string>) {
    && (forall s :: s in slugIndex ==> s in table)
    && (forall s :: s in table ==> s in slugIndex)
    && (forall s :: s in table ==> SlugOf(slugify, table[s]) == s)
  }

  /** Every table entry's finished record, under the same slug. */
  function Entries(slugify: string -> string, table: map<string, Row>, slugIndex: seq<string>, ext: Externals)
    : map<string, Record>
    requires Indexed(slugify, table, slugIndex)
  {
    map s | s in table :: DeriveRecord(slugify, table[s], table, slugIndex, ext)
  }

  /** `slugIndex`: `Object.keys(words).sort()`. */
  function SlugIndex(slugify: string -> string, rows: seq<Row>): seq<string> {
    Sort(Alphabetical, SlugList(slugify, rows))
  }

  /** The sorted slug list indexes the table. */
  lemma TableIndexed(slugify: string -> string, rows: seq<Row>)
    ensures Indexed(slugify, Table(slugify, rows), SlugIndex(slugify, rows))
  {
    var keys := SlugList(slugify, rows);
    var sorted := SlugIndex(slugify, rows);
    TableFacts(slugify, rows);
    forall s ensures s in sorted <==> s in Table(slugify, rows) {
      assert s in sorted <==> s in multiset(sorted);
      assert s in keys <==> s in multiset(keys);
      if s in Table(slugify, rows) {
        var i :| 0 <= i < |rows| && SlugOf(slugify, rows[i]) == s;
        assert keys[i] == s;
      }
    }
  }

  /** `words.json`: the entries in alphabetical slug order. */
  function Words(slugify: string -> string, rows: seq<Row>, ext: Externals): WordCollection {
    TableIndexed(slugify, rows);
    WordCollection(SlugIndex(slugify, rows), Entries(slugify, Table(slugify, rows), SlugIndex(slugify, rows), ext))
  }

  /** Each entry's date as the date comparator sees it. */
  function DateKeys(entries: map<string, Record>, ext: Externals): map<string, int> {
    map s | s in entries :: ext.dateKey(entries[s].submissiondate)
  }

  /**
    The keys re-sorted newest first by a stable sort (gulpfile.babel.js:329-331
    and 388-390): equal dates keep their order in `words.keys`.
  */
  function ByDate(words: WordCollection, ext: Externals): seq<string> {
    Sort(NewestFirst(DateKeys(words.entries, ext), words.keys), words.keys)
  }

  /** `Math.floor(draw * (n - 1)) + 1`. */
  function SecondIndex(n: nat, draw: real): int {
    (draw * (n - 1) as real).Floor + 1
  }

  /**
    The keys `homewords` ends up with. An index outside the list stores
    `undefined`, which `JSON.stringify` leaves out; index 0 again would rewrite
    the first entry with itself.
  */
  function HomeKeys(byDate: seq<string>, draw: real): seq<string> {
    var k := SecondIndex(|byDate|, draw);
    (if |byDate| > 0 then [byDate[0]] else [])
    + (if 0 < k < |byDate| then [byDate[k]] else [])
  }

  /** `homewords.json`: the newest entry and the drawn one, shared with `words`. */
  function HomeWords(byDate: seq<string>, entries: map<string, Record>, draw: real): WordCollection
    requires forall s :: s in byDate ==> s in entries
  {
    var keys := HomeKeys(byDate, draw);
    WordCollection(keys, map s | s in keys :: entries[s])
  }

  /**
    `words.json` holds one entry per row: its keys are exactly the rows' slugs,
    strictly ascending, and each entry sits under its own slug.
  */
  lemma WordsKeys(slugify: string -> string, rows: seq<Row>, ext: Externals)
    requires SlugsDistinct(slugify, rows)
    ensures var w := Words(slugify, rows, ext);
      && w.Valid()
      && SortedBy(Alphabetical, w.keys)
      && |w.keys| == |rows|
      && (forall s :: s in w.keys <==> exists i :: 0 <= i < |rows| && SlugOf(slugify, rows[i]) == s)
      && (forall s :: s in w.entries ==> w.entries[s].slug == s)
  {
    var keys := SlugList(slugify, rows);
    assert Distinct(keys);
    SortSorted(Alphabetical, keys);
    SortedDistinct(Alphabetical, SlugIndex(slugify, rows));
    TableIndexed(slugify, rows);
    TableFacts(slugify, rows);
  }

  lemma ByDateOfValid(words: WordCollection, ext: Externals)
    requires words.Valid()
    ensures forall s :: s in ByDate(words, ext) <==> s in words.entries
    ensures |ByDate(words, ext)| == |words.keys|
    ensures SortedBy(NewestFirst(DateKeys(words.entries, ext), words.keys), ByDate(words, ext))
  {
    var d := ByDate(words, ext);
    forall s ensures s in d <==> s in words.keys {
      assert s in d <==> s in multiset(d);
      assert s in words.keys <==> s in multiset(words.keys);
    }
    SortSorted(NewestFirst(DateKeys(words.entries, ext), words.keys), words.keys);
  }

  /** The whole transform: an error for a repeated slug, otherwise both collections. */
  function Derivation(slugify: string -> string, rows: seq<Row>, ext: Externals, draw: real): Result<Derived, Error> {
    match FirstRepeat(slugify, rows, {})
    case Some(slug) => Failure(AlreadyExists(slug))
    case None =>
      FirstRepeatNone(slugify, rows, {});
      var words := Words(slugify, rows, ext);
      WordsKeys(slugify, rows, ext);
      ByDateOfValid(words, ext);
      Success(Derived(words, HomeWords(ByDate(words, ext), words.entries, draw)))
  }

  /**
    Two rows with the same slug make the transform fail, naming that slug, and
    then neither collection is produced.
  */
  lemma DuplicateSlugIsFatal(slugify: string -> string, rows: seq<Row>, ext: Externals, draw: real)
    ensures Derivation(slugify, rows, ext, draw).Failure? <==> !SlugsDistinct(slugify, rows)
    ensures Derivation(slugify, rows, ext, draw).Failure? ==>
      exists i, j :: 0 <= i < j < |rows|
        && SlugOf(slugify, rows[i]) == Derivation(slugify, rows, ext, draw).error.slug
        && SlugOf(slugify, rows[j]) == Derivation(slugify, rows, ext, draw).error.slug
  {
    FirstRepeatNone(slugify, rows, {});
    if FirstRepeat(slugify, rows, {}).Some? {
      FirstRepeatWitness(slugify, rows, {}, FirstRepeat(slugify, rows, {}).value);
    }
  }

  /** With distinct slugs the transform succeeds with `Words` and the home selection over its date order. */
  lemma DerivationSucceeds(slugify: string -> string, rows: seq<Row>, ext: Externals, draw: real)
    requires SlugsDistinct(slugify, rows)
    ensures var w := Words(slugify, rows, ext);
      && Derivation(slugify, rows, ext, draw).Success?
      && Derivation(slugify, rows, ext, draw).value.words == w
      && (forall s :: s in ByDate(w, ext) ==> s in w.entries)
      && Derivation(slugify, rows, ext, draw).value.homewords == HomeWords(ByDate(w, ext), w.entries, draw)
  {
    FirstRepeatNone(slugify, rows, {});
    WordsKeys(slugify, rows, ext);
    ByDateOfValid(Words(slugify, rows, ext), ext);
  }

  /** The derived fields of the entry made from row `i`. */
  lemma DerivedFields(slugify: string -> string, rows: seq<Row>, ext: Externals, i: int)
    requires SlugsDistinct(slugify, rows) && 0 <= i < |rows|
    ensures SlugOf(slugify, rows[i]) in Words(slugify, rows, ext).entries
    ensures var e := Words(slugify, rows, ext).entries[SlugOf(slugify, rows[i])];
      && e.word == rows[i].word
      && e.slug == SlugOf(slugify, rows[i])
      && e.relatedwords == Resolve(slugify, rows[i].relatedwords, Table(slugify, rows))
      && (e.showPerpetratorData <==> Truthy(rows[i].perpetrator) || Truthy(rows[i].usagesource))
      && e.wordid == StripWordId(rows[i].wordid)
      && e.tweettextrss == ext.escape(TweetText(e.word, e.wordid, e.slug))
      && e.tweettexturi == ext.encodeUri(TweetText(e.word, e.wordid, e.slug))
      && e.formatteddate == ext.longDate(rows[i].submissiondate)
      && e.pubdate == ext.rfcDate(rows[i].submissiondate)
      && e.submissiondate == rows[i].submissiondate
      && e.definition == rows[i].definition && e.usageexample == rows[i].usageexample
      && e.lucycommentary == rows[i].lucycommentary && e.perpetrator == rows[i].perpetrator
      && e.usagesource == rows[i].usagesource && e.sourceurl == rows[i].sourceurl
      && e.commenturl == rows[i].commenturl
  {
    TableEntries(slugify, rows);
    TableIndexed(slugify, rows);
  }

  /** In any indexed table, the record at sorted position `i` points to its cyclic neighbours. */
  lemma EntriesRing(slugify: string -> string, table: map<string, Row>, slugIndex: seq<string>, ext: Externals, i: int)
    requires Indexed(slugify, table, slugIndex) && Distinct(slugIndex) && 0 <= i < |slugIndex|
    ensures var e := Entries(slugify, table, slugIndex, ext);
      var n := |slugIndex|;
      && slugIndex[i] in e && slugIndex[PrevPos(i, n)] in e && slugIndex[NextPos(i, n)] in e
      && e[slugIndex[i]].previousWord == Ref(slugIndex[PrevPos(i, n)], e[slugIndex[PrevPos(i, n)]].word)
      && e[slugIndex[i]].nextWord == Ref(slugIndex[NextPos(i, n)], e[slugIndex[NextPos(i, n)]].word)
  {
    IndexOfDistinct(slugIndex, i);
    RingStepsInverse(i, |slugIndex|);
  }

  /**
    The ring: the entry at sorted position `i` of `words.json` points back to
    the entry before it and on to the entry after it, wrapping at both ends,
    with those entries' slugs and words.
  */
  lemma WordsRing(slugify: string -> string, rows: seq<Row>, ext: Externals, i: int)
    requires SlugsDistinct(slugify, rows) && 0 <= i < |rows|
    ensures var w := Words(slugify, rows, ext);
      var n := |w.keys|;
      && n == |rows|
      && w.keys[i] in w.entries && w.keys[PrevPos(i, n)] in w.entries && w.keys[NextPos(i, n)] in w.entries
      && w.entries[w.keys[i]].previousWord == Ref(w.keys[PrevPos(i, n)], w.entries[w.keys[PrevPos(i, n)]].word)
      && w.entries[w.keys[i]].nextWord == Ref(w.keys[NextPos(i, n)], w.entries[w.keys[NextPos(i, n)]].word)
  {
    WordsKeys(slugify, rows, ext);
    TableIndexed(slugify, rows);
    EntriesRing(slugify, Table(slugify, rows), SlugIndex(slugify, rows), ext, i);
  }

  /** Next and previous undo each other. */
  lemma RingInverse(slugify: string -> string, rows: seq<Row>, ext: Externals, s: string)
    requires SlugsDistinct(slugify, rows) && s in Words(slugify, rows, ext).entries
    ensures var e := Words(slugify, rows, ext).entries;
      && e[s].nextWord.slug in e && e[e[s].nextWord.slug].previousWord.slug == s
      && e[s].previousWord.slug in e && e[e[s].previousWord.slug].nextWord.slug == s
  {
    var w := Words(slugify, rows, ext);
    var n := |w.keys|;
    WordsKeys(slugify, rows, ext);
    var i :| 0 <= i < n && w.keys[i] == s;
    RingStepsInverse(i, n);
    WordsRing(slugify, rows, ext, i);
    WordsRing(slugify, rows, ext, NextPos(i, n));
    WordsRing(slugify, rows, ext, PrevPos(i, n));
  }

  /**
    The ring closes: the last slug's next is the first and the first's previous
    is the last; a single word points to itself both ways.
  */
  lemma RingEnds(slugify: string -> string, rows: seq<Row>, ext: Externals)
    requires SlugsDistinct(slugify, rows) && rows != []
    ensures var w := Words(slugify, rows, ext);
      var n := |w.keys|;
      && n > 0 && w.keys[0] in w.entries && w.keys[n - 1] in w.entries
      && w.entries[w.keys[n - 1]].nextWord.slug == w.keys[0]
      && w.entries[w.keys[0]].previousWord.slug == w.keys[n - 1]
      && (n == 1 ==> w.entries[w.keys[0]].nextWord.slug == w.keys[0] && w.entries[w.keys[0]].previousWord.slug == w.keys[0])
  {
    WordsRing(slugify, rows, ext, 0);
    WordsRing(slugify, rows, ext, |rows| - 1);
  }

  /** For at least two words and a draw in `[0, 1)` the second index is a valid position other than the first. */
  lemma SecondIndexInRange(n: nat, draw: real)
    requires n >= 2 && 0.0 <= draw < 1.0
    ensures 1 <= SecondIndex(n, draw) <= n - 1
  {
    var m := (n - 1) as real;
    assert 0.0 <= draw * m;
    assert draw * m < m by {
      assert (1.0 - draw) * m > 0.0;
    }
  }

  /** The first of a newest-first order carries the latest date. */
  lemma NewestFirstHead(dates: map<string, int>, keys: seq<string>, s: seq<string>)
    requires SortedBy(NewestFirst(dates, keys), s) && s != []
    ensures forall x :: x in s ==> DateOf(dates, x) <= DateOf(dates, s[0])
  {
    forall x | x in s ensures DateOf(dates, x) <= DateOf(dates, s[0]) {
      var j :| 0 <= j < |s| && s[j] == x;
      if j > 0 {
        assert Precedes(NewestFirst(dates, keys), s[0], s[j]);
      }
    }
  }

  /** From a list of two slugs or more, the home selection is its head and one other of its slugs, shared with `entries`. */
  lemma HomeWordsPair(byDate: seq<string>, entries: map<string, Record>, draw: real)
    requires Distinct(byDate) && |byDate| >= 2 && 0.0 <= draw < 1.0
    requires forall s :: s in byDate ==> s in entries
    ensures var h := HomeWords(byDate, entries, draw);
      && h.Valid()
      && |h.keys| == 2 && h.keys[0] == byDate[0] && h.keys[1] in byDate[1..]
      && (forall s :: s in h.entries ==> s in entries && h.entries[s] == entries[s])
  {
    SecondIndexInRange(|byDate|, draw);
    var k := SecondIndex(|byDate|, draw);
    assert HomeKeys(byDate, draw) == [byDate[0], byDate[k]];
    assert byDate[k] == byDate[1..][k - 1];
  }

  /**
    With two words or more, `homewords` has two different entries, shared with
    `words`; the first has the latest submission date.
  */
  lemma HomeSelection(slugify: string -> string, rows: seq<Row>, ext: Externals, draw: real)
    requires SlugsDistinct(slugify, rows) && |rows| >= 2 && 0.0 <= draw < 1.0
    ensures Derivation(slugify, rows, ext, draw).Success?
    ensures var d := Derivation(slugify, rows, ext, draw).value;
      && d.homewords.Valid()
      && |d.homewords.keys| == 2 && d.homewords.keys[0] != d.homewords.keys[1]
      && (forall s :: s in d.homewords.entries ==> s in d.words.entries && d.homewords.entries[s] == d.words.entries[s])
      && (forall s :: s in d.words.entries ==>
            ext.dateKey(d.words.entries[s].submissiondate) <= ext.dateKey(d.homewords.entries[d.homewords.keys[0]].submissiondate))
  {
    DerivationSucceeds(slugify, rows, ext, draw);
    var w := Words(slugify, rows, ext);
    WordsKeys(slugify, rows, ext);
    ByDateOfValid(w, ext);
    var byDate := ByDate(w, ext);
    var dates := DateKeys(w.entries, ext);
    SortedDistinct(NewestFirst(dates, w.keys), byDate);
    NewestFirstHead(dates, w.keys, byDate);
    HomeWordsPair(byDate, w.entries, draw);
    assert byDate[0] !in byDate[1..];
    forall s | s in w.entries
      ensures ext.dateKey(w.entries[s].submissiondate) <= ext.dateKey(w.entries[byDate[0]].submissiondate)
    {
      assert DateOf(dates, s) <= DateOf(dates, byDate[0]);
    }
  }

  /** With fewer than two words, `homewords` is all of `words`: empty, or the one entry. */
  lemma HomeSmall(slugify: string -> string, rows: seq<Row>, ext: Externals, draw: real)
    requires SlugsDistinct(slugify, rows) && |rows| < 2
    ensures Derivation(slugify, rows, ext, draw).Success?
    ensures var d := Derivation(slugify, rows, ext, draw).value;
      d.homewords.keys == d.words.keys && d.homewords.entries == d.words.entries
  {
    DerivationSucceeds(slugify, rows, ext, draw);
    var w := Words(slugify, rows, ext);
    WordsKeys(slugify, rows, ext);
    ByDateOfValid(w, ext);
    var byDate := ByDate(w, ext);
    HomeKeysSmall(byDate, w.entries, draw);
    if |rows| == 1 {
      assert byDate == w.keys by {
        assert byDate[0] in w.entries;
        assert w.keys[0] in w.entries;
      }
    }
    SameMaps(HomeWords(byDate, w.entries, draw).entries, w.entries);
  }

  /** Fewer than two keys are all kept, whatever the draw. */
  lemma HomeKeysSmall(byDate: seq<string>, entries: map<string, Record>, draw: real)
    requires |byDate| < 2 && forall s :: s in byDate ==> s in entries
    ensures HomeWords(byDate, entries, draw).keys == byDate
    ensures forall s :: s in HomeWords(byDate, entries, draw).entries <==> s in byDate
    ensures forall s :: s in HomeWords(byDate, entries, draw).entries ==> HomeWords(byDate, entries, draw).entries[s] == entries[s]
  {
    if |byDate| == 1 {
      assert [byDate[0]] == byDate;
    }
  }


  /**
    The transform as the build runs it: fill the table row by row, failing at
    the first repeated slug; sort the slugs; derive every row's entry in
    spreadsheet order; re-sort by date and pick the two home entries.
  */
  method DownloadData(spreadsheet: seq<Row>, ext: Externals, draw: real) returns (r: Result<Derived, Error>)
    ensures r == Derivation(Slugify, spreadsheet, ext, draw)
  {
    r := Transform(Slugify, spreadsheet, ext, draw);
  }

  /** `DownloadData` for any slug function. */
  method Transform(slugify: string -> string, spreadsheet: seq<Row>, ext: Externals, draw: real)
    returns (r: Result<Derived, Error>)
    ensures r == Derivation(slugify, spreadsheet, ext, draw)
  {
    var words, wordArray, repeat := FillTable(slugify, spreadsheet);
    if repeat.Some? {
      return Failure(AlreadyExists(repeat.value));
    }
    FirstRepeatNone(slugify, spreadsheet, {});
    var slugIndex := Sort(Alphabetical, wordArray);
    TableIndexed(slugify, spreadsheet);
    TableFacts(slugify, spreadsheet);
    var entries := DeriveEntries(slugify, spreadsheet, words, slugIndex, ext);
    var sortedWords := WordCollection(slugIndex, entries);
    WordsKeys(slugify, spreadsheet, ext);
    ByDateOfValid(sortedWords, ext);
    var dateIndex := Sort(NewestFirst(DateKeys(entries, ext), slugIndex), slugIndex);
    var homewords := PickHome(dateIndex, entries, draw);
    return Success(Derived(sortedWords, homewords));
  }

  /** The first loop: every row under its slug, and the slugs in row order, unless a slug repeats. */
  method FillTable(slugify: string -> string, spreadsheet: seq<Row>)
    returns (words: map<string, Row>, wordArray: seq<string>, repeat: Option<string>)
    ensures repeat == FirstRepeat(slugify, spreadsheet, {})
    ensures repeat.None? ==> words == Table(slugify, spreadsheet) && wordArray == SlugList(slugify, spreadsheet)
  {
    words := map[];
    wordArray := [];
    assert spreadsheet[0..] == spreadsheet && words.Keys == {};
    for i := 0 to |spreadsheet|
      invariant words == Table(slugify, spreadsheet[..i])
      invariant wordArray == SlugList(slugify, spreadsheet[..i])
      invariant FirstRepeat(slugify, spreadsheet, {}) == FirstRepeat(slugify, spreadsheet[i..], words.Keys)
    {
      var row := spreadsheet[i];
      var slug := slugify(row.word);
      assert spreadsheet[i..][0] == row && spreadsheet[i..][1..] == spreadsheet[i + 1..];
      FirstRepeatStep(slugify, spreadsheet[i..], words.Keys);
      assert words[slug := row].Keys == words.Keys + {slug};
      if slug in words {
        return words, wordArray, Some(slug);
      }
      assert spreadsheet[..i + 1] == spreadsheet[..i] + [row];
      TableSnoc(slugify, spreadsheet[..i], row);
      words := words[slug := row];
      wordArray := wordArray + [slug];
    }
    assert spreadsheet[..|spreadsheet|] == spreadsheet;
    repeat := None;
  }

  /** Every record stored so far is the finished record of the row under the same slug. */
  ghost predicate Agree(slugify: string -> string, entries: map<string, Record>, words: map<string, Row>,
                        slugIndex: seq<string>, ext: Externals)
    requires Indexed(slugify, words, slugIndex)
  {
    forall s :: s in entries ==> s in words && entries[s] == DeriveRecord(slugify, words[s], words, slugIndex, ext)
  }

  /** Storing a row's finished record under its slug keeps the records in agreement with the table. */
  lemma AgreeStore(slugify: string -> string, entries: map<string, Record>, words: map<string, Row>,
                   slugIndex: seq<string>, ext: Externals, s: string, record: Record)
    requires Indexed(slugify, words, slugIndex) && Agree(slugify, entries, words, slugIndex, ext)
    requires s in words && record == DeriveRecord(slugify, words[s], words, slugIndex, ext)
    ensures Agree(slugify, entries[s := record], words, slugIndex, ext)
  {
  }

  /** Two maps with the same keys and the same value under each key are equal. */
  lemma SameMaps<V>(m: map<string, V>, m': map<string, V>)
    requires forall s :: s in m <==> s in m'
    requires forall s :: s in m ==> m[s] == m'[s]
    ensures m == m'
  {
  }

  /** Records that agree with the table and cover all of it are `Entries`. */
  lemma AgreeCovering(slugify: string -> string, entries: map<string, Record>, words: map<string, Row>,
                      slugIndex: seq<string>, ext: Externals)
    requires Indexed(slugify, words, slugIndex) && Agree(slugify, entries, words, slugIndex, ext)
    requires forall s :: s in words ==> s in entries
    ensures entries == Entries(slugify, words, slugIndex, ext)
  {
    var e := Entries(slugify, words, slugIndex, ext);
    forall s | s in e ensures s in entries && entries[s] == e[s] {
      assert entries[s] == DeriveRecord(slugify, words[s], words, slugIndex, ext);
    }
    SameMaps(entries, e);
  }

  /** The second loop: each row's finished record, stored under its slug. */
  method DeriveEntries(slugify: string -> string, spreadsheet: seq<Row>, words: map<string, Row>,
                       slugIndex: seq<string>, ext: Externals)
    returns (entries: map<string, Record>)
    requires Indexed(slugify, words, slugIndex)
    requires forall j :: 0 <= j < |spreadsheet| ==> SlugOf(slugify, spreadsheet[j]) in words
    requires forall s :: s in words ==> exists j :: 0 <= j < |spreadsheet| && SlugOf(slugify, spreadsheet[j]) == s
    ensures entries == Entries(slugify, words, slugIndex, ext)
  {
    entries := map[];
    for i := 0 to |spreadsheet|
      invariant Agree(slugify, entries, words, slugIndex, ext)
      invariant forall j :: 0 <= j < i ==> SlugOf(slugify, spreadsheet[j]) in entries
    {
      var currentSlug := slugify(spreadsheet[i].word);
      var currentWord := words[currentSlug];
      var record := DeriveEntry(slugify, currentWord, words, slugIndex, ext);
      AgreeStore(slugify, entries, words, slugIndex, ext, currentSlug, record);
      entries := entries[currentSlug := record];
    }
    AgreeCovering(slugify, entries, words, slugIndex, ext);
  }

  /** One pass of the second loop's body: the fields it sets on the row stored under `currentWord`'s slug. */
  method DeriveEntry(slugify: string -> string, currentWord: Row, words: map<string, Row>, slugIndex: seq<string>,
                     ext: Externals)
    returns (record: Record)
    requires SlugOf(slugify, currentWord) in slugIndex
    requires forall s :: s in slugIndex ==> s in words
    ensures record == DeriveRecord(slugify, currentWord, words, slugIndex, ext)
  {
    var currentSlug := slugify(currentWord.word);
    var relatedwords := Resolve(slugify, currentWord.relatedwords, words);

    var slugPointer: int;
    if IndexOf(slugIndex, currentSlug) > 0 {
      slugPointer := IndexOf(slugIndex, currentSlug) - 1;
    } else {
      slugPointer := |slugIndex| - 1;
    }
    var previousWord := Pointer(slugify, words, slugIndex[slugPointer]);

    if IndexOf(slugIndex, currentSlug) < |slugIndex| - 1 {
      slugPointer := IndexOf(slugIndex, currentSlug) + 1;
    } else {
      slugPointer := 0;
    }
    var nextWord := Pointer(slugify, words, slugIndex[slugPointer]);

    var showPerpetratorData := Truthy(currentWord.perpetrator) || Truthy(currentWord.usagesource);
    var wordid := currentWord.wordid;
    if Truthy(wordid) {
      wordid := Str(SubstringFrom(wordid.s, 4));
    }

    var tweetTextString := TweetText(currentWord.word, wordid, currentSlug);
    record := Record(
      word := currentWord.word,
      slug := currentSlug,
      relatedwords := relatedwords,
      previousWord := previousWord,
      nextWord := nextWord,
      showPerpetratorData := showPerpetratorData,
      wordid := wordid,
      formatteddate := ext.longDate(currentWord.submissiondate),
      pubdate := ext.rfcDate(currentWord.submissiondate),
      tweettextrss := ext.escape(tweetTextString),
      tweettexturi := ext.encodeUri(tweetTextString),
      submissiondate := currentWord.submissiondate,
      definition := currentWord.definition,
      usageexample := currentWord.usageexample,
      lucycommentary := currentWord.lucycommentary,
      perpetrator := currentWord.perpetrator,
      usagesource := currentWord.usagesource,
      sourceurl := currentWord.sourceurl,
      commenturl := currentWord.commenturl);
  }

  /** `homewords`: the newest entry, then the drawn one. */
  method PickHome(dateIndex: seq<string>, entries: map<string, Record>, draw: real) returns (homewords: WordCollection)
    requires forall s :: s in dateIndex ==> s in entries
    ensures homewords == HomeWords(dateIndex, entries, draw)
  {
    var homeKeys: seq<string> := [];
    var homeEntries: map<string, Record> := map[];
    if |dateIndex| > 0 {
      homeKeys := [dateIndex[0]];
      homeEntries := map[dateIndex[0] := entries[dateIndex[0]]];
    }
    var randomNumber := (draw * (|dateIndex| - 1) as real).Floor + 1;
    if 0 < randomNumber < |dateIndex| {
      homeKeys := homeKeys + [dateIndex[randomNumber]];
      homeEntries := homeEntries[dateIndex[randomNumber] := entries[dateIndex[randomNumber]]];
    }
    assert homeKeys == HomeKeys(dateIndex, draw);
    homewords := WordCollection(homeKeys, homeEntries);
  }
}
