/** The history file of price-tracker.py: a CSV file with the header url,name,price,timestamp
    followed by one row per observation, appended to by write_to_csv and read back by
    read_last_prices. Rows are records here; the CSV text encoding is not modelled. */
module History {
  import opened Wrappers
  import opened Observations

  /** One line of the file: the header line, or one observation. */
  datatype Row = Header | Record(obs: Observation)

  /** A file as write_to_csv produces it: empty, or the header followed by records only. */
  predicate WellFormed(rows: seq<Row>)
  {
    (rows == [] || rows[0] == Header) && forall i :: 1 <= i < |rows| ==> rows[i].Record?
  }

  /** Number of header lines in `rows`. */
  function HeaderCount(rows: seq<Row>): nat
  {
    if rows == [] then 0 else (if rows[0] == Header then 1 else 0) + HeaderCount(rows[1..])
  }

  function RecordsOf(obs: seq<Observation>): (rows: seq<Row>)
    ensures |rows| == |obs|
    ensures forall i :: 0 <= i < |obs| ==> rows[i] == Record(obs[i])
  {
    if obs == [] then [] else [Record(obs[0])] + RecordsOf(obs[1..])
  }

  /** The observations a csv.DictReader yields: every row after the first (the header). */
  function Body(rows: seq<Row>): (obs: seq<Observation>)
    requires WellFormed(rows)
    ensures |obs| == if rows == [] then 0 else |rows| - 1
    ensures forall i :: 0 <= i < |obs| ==> rows[i + 1] == Record(obs[i])
  {
    if rows == [] then [] else Unwrap(rows[1..])
  }

  function Unwrap(records: seq<Row>): (obs: seq<Observation>)
    requires forall i :: 0 <= i < |records| ==> records[i].Record?
    ensures |obs| == |records|
    ensures forall i :: 0 <= i < |records| ==> records[i] == Record(obs[i])
  {
    if records == [] then [] else [records[0].obs] + Unwrap(records[1..])
  }

  /** A file written as the header plus records reads back as those records. */
  lemma BodyOfRecords(obs: seq<Observation>)
    ensures WellFormed([Header] + RecordsOf(obs))
    ensures Body([Header] + RecordsOf(obs)) == obs
  {
    var file := [Header] + RecordsOf(obs);
    assert WellFormed(file);
    var body := Body(file);
    forall i | 0 <= i < |body| ensures body[i] == obs[i] {
      assert file[i + 1] == Record(body[i]);
    }
  }

  /** A well-formed file holds exactly one header line, or none when it is empty. */
  lemma {:induction false} WellFormedHeaderCount(rows: seq<Row>)
    requires WellFormed(rows)
    ensures HeaderCount(rows) == if rows == [] then 0 else 1
  {
    if rows != [] {
      NoHeaderCount(rows[1..]);
    }
  }

  lemma {:induction false} NoHeaderCount(rows: seq<Row>)
    requires forall i :: 0 <= i < |rows| ==> rows[i].Record?
    ensures HeaderCount(rows) == 0
  {
    if rows != [] {
      NoHeaderCount(rows[1..]);
    }
  }

  /** One write_to_csv call: the header first when the file is empty (file.tell() == 0),
      then the observation's row. */
  function WriteRow(rows: seq<Row>, obs: Observation): (rows': seq<Row>)
    ensures rows' != [] && rows'[0] == (if rows == [] then Header else rows[0])
    ensures |rows'| == |rows| + (if rows == [] then 2 else 1)
    ensures rows != [] ==> rows'[..|rows|] == rows
    ensures rows'[|rows'| - 1] == Record(obs)
  {
    (if rows == [] then [Header] else rows) + [Record(obs)]
  }

  /** One append keeps the file well formed and adds exactly its observation to what the
      file reads back as. */
  lemma BodyWriteRow(rows: seq<Row>, obs: Observation)
    requires WellFormed(rows)
    ensures WellFormed(WriteRow(rows, obs))
    ensures Body(WriteRow(rows, obs)) == Body(rows) + [obs]
  {
    var file := WriteRow(rows, obs);
    assert WellFormed(file);
    var before, after := Body(rows), Body(file);
    assert |after| == |before| + 1;
    forall i | 0 <= i < |after| ensures after[i] == (before + [obs])[i] {
      if i < |before| {
        assert file[i + 1] == rows[i + 1] == Record(before[i]);
      } else {
        assert file[i + 1] == Record(obs);
      }
    }
  }

  /** Successive write_to_csv calls, one per observation, in order. */
  function WriteAll(rows: seq<Row>, obs: seq<Observation>): (rows': seq<Row>)
    ensures |rows'| == |rows| + |obs| + (if rows == [] && obs != [] then 1 else 0)
    ensures rows != [] ==> rows'[..|rows|] == rows
    decreases |obs|
  {
    if obs == [] then rows else WriteAll(WriteRow(rows, obs[0]), obs[1..])
  }

  /** Writing one more observation after a series of writes is one more write_to_csv. */
  lemma {:induction false} WriteAllSnoc(rows: seq<Row>, obs: seq<Observation>, o: Observation)
    ensures WriteAll(rows, obs + [o]) == WriteRow(WriteAll(rows, obs), o)
    decreases |obs|
  {
    if obs == [] {
      assert WriteAll(WriteRow(rows, o), []) == WriteRow(rows, o);
    } else {
      assert (obs + [o])[1..] == obs[1..] + [o];
      WriteAllSnoc(WriteRow(rows, obs[0]), obs[1..], o);
    }
  }

  /** Reading back a file after a series of appends gives the earlier records followed by
      the appended observations, in order. */
  lemma {:induction false} BodyWriteAll(rows: seq<Row>, obs: seq<Observation>)
    requires WellFormed(rows)
    ensures WellFormed(WriteAll(rows, obs))
    ensures Body(WriteAll(rows, obs)) == Body(rows) + obs
    decreases |obs|
  {
    if obs == [] {
      assert Body(rows) + obs == Body(rows);
    } else {
      var init, o := obs[..|obs| - 1], obs[|obs| - 1];
      assert obs == init + [o];
      BodyWriteAll(rows, init);
      WriteAllSnoc(rows, init, o);
      BodyWriteRow(WriteAll(rows, init), o);
      assert Body(rows) + init + [o] == Body(rows) + obs;
    }
  }

  /** However many appends, a file that is or becomes non-empty holds the header exactly
      once, as its first line. */
  lemma WriteAllHeaderOnce(rows: seq<Row>, obs: seq<Observation>)
    requires WellFormed(rows)
    requires rows != [] || obs != []
    ensures WriteAll(rows, obs) != [] && WriteAll(rows, obs)[0] == Header
    ensures HeaderCount(WriteAll(rows, obs)) == 1
  {
    BodyWriteAll(rows, obs);
    if obs == [] {
      assert WriteAll(rows, obs) == rows;
    } else {
      assert |Body(WriteAll(rows, obs))| > 0;
    }
    WellFormedHeaderCount(WriteAll(rows, obs));
  }

  /** Appending to a file that already has content leaves its lines in place and adds one
      record line per observation: no second header. */
  lemma {:induction false} WriteAllNonEmpty(rows: seq<Row>, obs: seq<Observation>)
    requires rows != []
    ensures WriteAll(rows, obs) == rows + RecordsOf(obs)
    decreases |obs|
  {
    if obs != [] {
      WriteAllNonEmpty(rows + [Record(obs[0])], obs[1..]);
      assert [Record(obs[0])] + RecordsOf(obs[1..]) == RecordsOf(obs);
    }
  }

  /** Python's rows[-n:]: the last n rows, all of them when there are fewer than n,
      and also all of them when n is 0 (rows[-0:] is rows[0:]). */
  function TailSlice<T>(rows: seq<T>, n: nat): (tail: seq<T>)
    ensures |tail| == if n == 0 || n >= |rows| then |rows| else n
    ensures tail == rows[|rows| - |tail|..]
  {
    if n == 0 || n >= |rows| then rows else rows[|rows| - n..]
  }

  /** The dict comprehension {row['url']: row['price'] for row in rows}: rows are taken in
      order, so a later row for the same URL overwrites an earlier one. */
  function PriceMap(rows: seq<Observation>): (m: map<Url, real>)
    ensures forall u :: u in m ==> exists o :: o in rows && o.url == u && o.price == m[u]
  {
    if rows == [] then map[]
    else PriceMap(rows[..|rows| - 1])[rows[|rows| - 1].url := rows[|rows| - 1].price]
  }

  /** Every key is the URL of some row, and every row's URL is a key. */
  lemma {:induction false} PriceMapKeys(rows: seq<Observation>)
    ensures PriceMap(rows).Keys == set o | o in rows :: o.url
  {
    if rows != [] {
      var init := rows[..|rows| - 1];
      PriceMapKeys(init);
      assert rows == init + [rows[|rows| - 1]];
      assert (set o | o in rows :: o.url) == (set o | o in init :: o.url) + {rows[|rows| - 1].url};
    }
  }

  /** The value stored for a URL is the price of the latest row carrying that URL. */
  lemma {:induction false} PriceMapLatest(rows: seq<Observation>, i: nat)
    requires i < |rows|
    requires forall j :: i < j < |rows| ==> rows[j].url != rows[i].url
    ensures rows[i].url in PriceMap(rows)
    ensures PriceMap(rows)[rows[i].url] == rows[i].price
  {
    if i < |rows| - 1 {
      PriceMapLatest(rows[..|rows| - 1], i);
    }
  }

  /** read_last_prices: None stands for a missing file (FileNotFoundError), which gives the
      empty map; otherwise the map built from the last n records. */
  function LastPrices(file: Option<seq<Observation>>, n: nat): (m: map<Url, real>)
    ensures file.None? ==> m == map[]
  {
    match file
    case None => map[]
    case Some(rows) => PriceMap(TailSlice(rows, n))
  }

  /** Exactly the URLs of the tail slice have a last price. */
  lemma LastPricesKeys(rows: seq<Observation>, n: nat)
    ensures LastPrices(Some(rows), n).Keys == set o | o in TailSlice(rows, n) :: o.url
  {
    PriceMapKeys(TailSlice(rows, n));
  }

  /** Within the tail slice, the latest row for a URL gives its last price. */
  lemma LastPricesLatestInTail(rows: seq<Observation>, n: nat, i: nat)
    requires |rows| - |TailSlice(rows, n)| <= i < |rows|
    requires forall j :: i < j < |rows| ==> rows[j].url != rows[i].url
    ensures rows[i].url in LastPrices(Some(rows), n)
    ensures LastPrices(Some(rows), n)[rows[i].url] == rows[i].price
  {
    var tail := TailSlice(rows, n);
    var start := |rows| - |tail|;
    var k := i - start;
    assert tail[k] == rows[i];
    forall j | k < j < |tail| ensures tail[j].url != tail[k].url {
      assert tail[j] == rows[j + start];
    }
    PriceMapLatest(tail, k);
  }

  /** Rows older than the last n have no influence on the lookup. */
  lemma LastPricesIgnoresOlderRows(older: seq<Observation>, recent: seq<Observation>, n: nat)
    requires 0 < n <= |recent|
    ensures LastPrices(Some(older + recent), n) == LastPrices(Some(recent), n)
  {
    assert TailSlice(older + recent, n) == TailSlice(recent, n);
  }

  /** The heuristic kept as it is: a tracked URL whose latest observation lies before the
      last n rows gets no last price, although the file holds one for it. Here the first
      URL failed in the two most recent runs of three. */
  lemma LastPricesMissesEarlierUrl(u1: Url, u2: Url, u3: Url, t: string)
    requires u1 != u2 && u1 != u3
    ensures var rows := [Observation(u1, "A", 10.0, t), Observation(u2, "B", 20.0, t),
                         Observation(u3, "C", 30.0, t), Observation(u2, "B", 21.0, t),
                         Observation(u3, "C", 31.0, t)];
            u1 !in LastPrices(Some(rows), 3) && u1 in PriceMap(rows)
  {
    var rows := [Observation(u1, "A", 10.0, t), Observation(u2, "B", 20.0, t),
                 Observation(u3, "C", 30.0, t), Observation(u2, "B", 21.0, t),
                 Observation(u3, "C", 31.0, t)];
    LastPricesKeys(rows, 3);
    PriceMapKeys(rows);
    assert rows[0].url == u1;
  }

  /** The history file, as the process sees it between two operations. */
  class Store {
    /** Whether the file exists at all; write_to_csv creates it. */
    var present: bool
    /** The lines of the file, in order. */
    var rows: seq<Row>

    ghost predicate Valid()
      reads this
    {
      (!present ==> rows == []) && WellFormed(rows)
    }

    /** The file as given: `history` recorded in a file that exists or not. */
    constructor (fileExists: bool, history: seq<Observation>)
      requires fileExists || history == []
      ensures Valid()
      ensures present == fileExists && Records() == history
      ensures rows == if history == [] then [] else [Header] + RecordsOf(history)
    {
      present := fileExists;
      rows := if history == [] then [] else [Header] + RecordsOf(history);
    }

    /** The records read back from the file, header excluded. */
    function Records(): (obs: seq<Observation>)
      reads this
      requires Valid()
    {
      Body(rows)
    }

    /** The file's contents as read_last_prices opens it: None when it does not exist. */
    function Contents(): (file: Option<seq<Observation>>)
      reads this
      requires Valid()
      ensures file.None? <==> !present
    {
      if present then Some(Records()) else None
    }

    /** read_last_prices with n tracked URLs. */
    function ReadLastPrices(n: nat): (m: map<Url, real>)
      reads this
      requires Valid()
      ensures !present ==> m == map[]
    {
      LastPrices(Contents(), n)
    }

    /** write_to_csv: opening in append mode creates the file; the header goes in only when
        the file is empty; then the observation's row. */
    method Append(obs: Observation)
      requires Valid()
      modifies this
      ensures Valid() && present
      ensures rows == WriteRow(old(rows), obs)
      ensures Records() == old(Records()) + [obs]
    {
      present := true;
      if rows == [] {
        rows := rows + [Header];
      }
      rows := rows + [Record(obs)];
      BodyWriteRow(old(rows), obs);
    }
  }

}
