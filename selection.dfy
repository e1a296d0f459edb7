/** The two row selections of the dashboard body: the trailing 24-hour window
    of the metrics, and the one-marker-per-station table of the map. */
module Selection {
  import opened Readings

  /** The rows that satisfy `keep`, in their original order (a boolean mask
      applied to a table). */
  function Keep(rows: seq<Record>, keep: Record -> bool): (k: seq<Record>)
    ensures forall x :: multiset(k)[x] == if keep(x) then multiset(rows)[x] else 0
    ensures forall x :: x in k ==> x in rows
  {
    if rows == [] then []
    else
      var rest := Keep(rows[1..], keep);
      assert rows == [rows[0]] + rows[1..];
      if keep(rows[0]) then [rows[0]] + rest else rest
  }

  lemma SortedTail(rows: seq<Record>)
    requires rows != [] && SortedByDate(rows)
    ensures SortedByDate(rows[1..])
    ensures forall y :: y in rows[1..] ==> rows[0].date <= y.date
  {
    var tail := rows[1..];
    forall i, j | 0 <= i < j < |tail| ensures tail[i].date <= tail[j].date {
      assert tail[i] == rows[i + 1] && tail[j] == rows[j + 1];
    }
    forall y | y in tail ensures rows[0].date <= y.date {
      var j :| 0 <= j < |tail| && tail[j] == y;
      assert rows[j + 1] == y;
    }
  }

  lemma SortedCons(h: Record, t: seq<Record>)
    requires SortedByDate(t) && forall y :: y in t ==> h.date <= y.date
    ensures SortedByDate([h] + t)
  {
    var k := [h] + t;
    forall i, j | 0 <= i < j < |k| ensures k[i].date <= k[j].date {
      assert k[j] == t[j - 1];
      if i > 0 {
        assert k[i] == t[i - 1];
      } else {
        assert t[j - 1] in t;
      }
    }
  }

  /** A selection of the rows of a table sorted by date is sorted by date. */
  lemma {:induction false} KeepSorted(rows: seq<Record>, keep: Record -> bool)
    requires SortedByDate(rows)
    ensures SortedByDate(Keep(rows, keep))
  {
    if rows != [] {
      SortedTail(rows);
      KeepSorted(rows[1..], keep);
      if keep(rows[0]) {
        SortedCons(rows[0], Keep(rows[1..], keep));
      }
    }
  }

  /** The rows of the last 24 hours before the latest timestamp
      (`df[df['date_local'] >= last_ts - timedelta(hours=24)]`), with their
      multiplicities. The latest row always belongs to it, so the window of
      a non-empty table is never empty. */
  function Last24h(rows: seq<Record>): (w: seq<Record>)
    requires rows != []
    ensures forall x :: multiset(w)[x] ==
                        if x.date >= MaxDate(rows) - 24 * SecondsPerHour then multiset(rows)[x] else 0
    ensures forall x :: x in w <==> x in rows && x.date >= MaxDate(rows) - 24 * SecondsPerHour
    ensures w != []
    ensures SortedByDate(rows) ==> SortedByDate(w)
  {
    var since := MaxDate(rows) - 24 * SecondsPerHour;
    var keep := (r: Record) => r.date >= since;
    var w := Keep(rows, keep);
    var k :| 0 <= k < |rows| && rows[k].date == MaxDate(rows);
    assert multiset(w)[rows[k]] > 0;
    assert SortedByDate(rows) ==> SortedByDate(w) by {
      if SortedByDate(rows) {
        KeepSorted(rows, keep);
      }
    }
    w
  }

  /** The rows that have both coordinates (`df.dropna(subset=['lat','lon'])`). */
  function WithCoordinates(rows: seq<Record>): (v: seq<Record>)
    ensures forall x :: multiset(v)[x] ==
                        if x.lat.Some? && x.lon.Some? then multiset(rows)[x] else 0
    ensures SortedByDate(rows) ==> SortedByDate(v)
  {
    var keep := (r: Record) => r.lat.Some? && r.lon.Some?;
    assert SortedByDate(rows) ==> SortedByDate(Keep(rows, keep)) by {
      if SortedByDate(rows) {
        KeepSorted(rows, keep);
      }
    }
    Keep(rows, keep)
  }

  /** The station names that occur in a table. */
  function Locations(rows: seq<Record>): set<string>
  {
    set x | x in rows :: x.location
  }

  /** The last row, in table order, that belongs to station `loc`. */
  function LastOf(rows: seq<Record>, loc: string): (r: Record)
    requires loc in Locations(rows)
    ensures r in rows && r.location == loc
  {
    assert forall x :: x in rows <==> x == rows[0] || x in rows[1..];
    if loc in Locations(rows[1..]) then LastOf(rows[1..], loc) else rows[0]
  }

  /** On a table sorted by date, the last row of a station is its newest. */
  lemma {:induction false} LastOfIsNewest(rows: seq<Record>, loc: string)
    requires SortedByDate(rows) && loc in Locations(rows)
    ensures forall x :: x in rows && x.location == loc ==> x.date <= LastOf(rows, loc).date
  {
    assert forall x :: x in rows <==> x == rows[0] || x in rows[1..];
    var tail := rows[1..];
    SortedTail(rows);
    assert forall y :: y in tail ==> y.location in Locations(tail);
    if loc in Locations(tail) {
      LastOfIsNewest(tail, loc);
      assert LastOf(tail, loc) in tail;
    } else {
      assert forall x :: x in rows && x.location == loc ==> x == rows[0];
    }
  }

  lemma LocationsCons(h: Record, t: seq<Record>)
    ensures Locations([h] + t) == {h.location} + Locations(t)
    ensures forall x :: x in [h] + t <==> x == h || x in t
  {
    assert forall x :: x in [h] + t <==> x == h || x in t;
  }

  /** `groupby('location').tail(1)`: the last row of every station, one row
      per station, in table order. */
  function LatestPerLocation(rows: seq<Record>): (r: seq<Record>)
    ensures forall x :: x in r ==> x in rows
    ensures forall i, j :: 0 <= i < j < |r| ==> r[i].location != r[j].location
    ensures Locations(r) == Locations(rows)
  {
    if rows == [] then []
    else
      var rest := LatestPerLocation(rows[1..]);
      assert rows == [rows[0]] + rows[1..];
      LocationsCons(rows[0], rows[1..]);
      if rows[0].location in Locations(rows[1..]) then rest
      else
        var r := [rows[0]] + rest;
        assert forall i, j :: 0 <= i < j < |r| ==> r[i].location != r[j].location by {
          forall i, j | 0 <= i < j < |r| ensures r[i].location != r[j].location {
            assert r[j] == rest[j - 1] && rest[j - 1] in rest;
            assert r[j].location in Locations(rest);
            if i > 0 {
              assert r[i] == rest[i - 1];
            }
          }
        }
        LocationsCons(rows[0], rest);
        r
  }

  /** Every row kept for a station is that station's last row. */
  lemma {:induction false} LatestPerLocationIsLast(rows: seq<Record>)
    ensures forall x :: x in LatestPerLocation(rows) ==> x == LastOf(rows, x.location)
  {
    if rows != [] {
      LatestPerLocationIsLast(rows[1..]);
      assert rows == [rows[0]] + rows[1..];
      LocationsCons(rows[0], rows[1..]);
      var rest := LatestPerLocation(rows[1..]);
      forall x | x in rest ensures x.location in Locations(rows[1..]) {
        assert x.location in Locations(rest);
      }
      if rows[0].location !in Locations(rows[1..]) {
        LocationsCons(rows[0], rest);
      }
    }
  }

  /** The stations drawn on the map (line 192 then line 194): one row per
      station that has coordinates, taken from the rows with coordinates. */
  function MapStations(rows: seq<Record>): (s: seq<Record>)
    ensures forall x :: x in s ==> x in rows && x.lat.Some? && x.lon.Some?
    ensures forall i, j :: 0 <= i < j < |s| ==> s[i].location != s[j].location
    ensures forall loc :: loc in Locations(s) <==>
      exists x :: x in rows && x.lat.Some? && x.lon.Some? && x.location == loc
  {
    var v := WithCoordinates(rows);
    assert forall x :: x in v <==> x in rows && x.lat.Some? && x.lon.Some? by {
      forall x ensures x in v <==> x in rows && x.lat.Some? && x.lon.Some? {
        assert x in v <==> multiset(v)[x] > 0;
        assert x in rows <==> multiset(rows)[x] > 0;
      }
    }
    LatestPerLocation(v)
  }

  /** When the table is sorted by date, every station's marker shows its
      newest reading among the rows that have coordinates. */
  lemma MapStationsNewest(rows: seq<Record>)
    requires SortedByDate(rows)
    ensures forall s, x ::
              s in MapStations(rows) && x in rows && x.lat.Some? && x.lon.Some? && x.location == s.location
              ==> x.date <= s.date
  {
    var v := WithCoordinates(rows);
    forall s, x | s in MapStations(rows) && x in rows && x.lat.Some? && x.lon.Some? &&
      x.location == s.location
      ensures x.date <= s.date
    {
      assert multiset(v)[x] > 0;
      LatestPerLocationIsLast(v);
      assert s == LastOf(v, s.location);
      LastOfIsNewest(v, s.location);
    }
  }
}
