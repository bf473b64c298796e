/** Dictionaries built by a scan that performs one optional write per input line.
    The log scanners fill their result dictionaries in one of two disciplines:
    `d[k] = v` on every write (the last write to a key wins), or
    `if k not in d: d[k] = v` (the first write to a key wins). */
module MapFolds {
  import opened Wrappers

  /** `w` is a write to key `k`. */
  ghost predicate WritesKey<K, V>(w: Option<(K, V)>, k: K) {
    w.Some? && w.value.0 == k
  }

  /** The dictionary after performing the writes `ws` in order with `d[k] = v`. */
  function LastWins<K(==), V>(ws: seq<Option<(K, V)>>): map<K, V> {
    if ws == [] then map[]
    else
      var m := LastWins(ws[..|ws| - 1]);
      var w := ws[|ws| - 1];
      if w.Some? then m[w.value.0 := w.value.1] else m
  }

  /** The dictionary after performing the writes `ws` in order with `if k not in d: d[k] = v`. */
  function FirstWins<K(==), V>(ws: seq<Option<(K, V)>>): map<K, V> {
    if ws == [] then map[]
    else
      var m := FirstWins(ws[..|ws| - 1]);
      var w := ws[|ws| - 1];
      if w.Some? && w.value.0 !in m then m[w.value.0 := w.value.1] else m
  }

  /** One more write on top of a scan: the step the scanning loops take per line. */
  lemma LastWinsSnoc<K, V>(ws: seq<Option<(K, V)>>, w: Option<(K, V)>)
    ensures LastWins(ws + [w]) == if w.Some? then LastWins(ws)[w.value.0 := w.value.1] else LastWins(ws)
  {
    assert (ws + [w])[..|ws|] == ws;
  }

  lemma FirstWinsSnoc<K, V>(ws: seq<Option<(K, V)>>, w: Option<(K, V)>)
    ensures FirstWins(ws + [w])
            == if w.Some? && w.value.0 !in FirstWins(ws) then FirstWins(ws)[w.value.0 := w.value.1]
               else FirstWins(ws)
  {
    assert (ws + [w])[..|ws|] == ws;
  }

  /** Under either discipline, a key is present iff some write wrote it. */
  lemma {:induction false} LastWinsDomain<K, V>(ws: seq<Option<(K, V)>>, k: K)
    ensures k in LastWins(ws) <==> exists i :: 0 <= i < |ws| && WritesKey(ws[i], k)
  {
    if ws != [] {
      var init := ws[..|ws| - 1];
      LastWinsDomain(init, k);
      if exists i :: 0 <= i < |init| && WritesKey(init[i], k) {
        var i :| 0 <= i < |init| && WritesKey(init[i], k);
        assert WritesKey(ws[i], k);
      }
      if exists i :: 0 <= i < |ws| && WritesKey(ws[i], k) {
        var i :| 0 <= i < |ws| && WritesKey(ws[i], k);
        if i < |init| {
          assert WritesKey(init[i], k);
        }
      }
    }
  }

  lemma {:induction false} FirstWinsDomain<K, V>(ws: seq<Option<(K, V)>>, k: K)
    ensures k in FirstWins(ws) <==> exists i :: 0 <= i < |ws| && WritesKey(ws[i], k)
  {
    if ws != [] {
      var init := ws[..|ws| - 1];
      FirstWinsDomain(init, k);
      if exists i :: 0 <= i < |init| && WritesKey(init[i], k) {
        var i :| 0 <= i < |init| && WritesKey(init[i], k);
        assert WritesKey(ws[i], k);
      }
      if exists i :: 0 <= i < |ws| && WritesKey(ws[i], k) {
        var i :| 0 <= i < |ws| && WritesKey(ws[i], k);
        if i < |init| {
          assert WritesKey(init[i], k);
        }
      }
    }
  }

  /** With `d[k] = v`, the entry holds the value of the last write to that key. */
  lemma {:induction false} LastWinsValue<K, V>(ws: seq<Option<(K, V)>>, k: K, i: nat)
    requires i < |ws| && WritesKey(ws[i], k)
    requires forall j :: i < j < |ws| ==> !WritesKey(ws[j], k)
    ensures k in LastWins(ws) && LastWins(ws)[k] == ws[i].value.1
  {
    var init := ws[..|ws| - 1];
    if i < |ws| - 1 {
      forall j | i < j < |init| ensures !WritesKey(init[j], k) {
        assert init[j] == ws[j];
      }
      LastWinsValue(init, k, i);
    }
  }

  /** With `if k not in d: d[k] = v`, the entry holds the value of the first write. */
  lemma {:induction false} FirstWinsValue<K, V>(ws: seq<Option<(K, V)>>, k: K, i: nat)
    requires i < |ws| && WritesKey(ws[i], k)
    requires forall j :: 0 <= j < i ==> !WritesKey(ws[j], k)
    ensures k in FirstWins(ws) && FirstWins(ws)[k] == ws[i].value.1
  {
    var init := ws[..|ws| - 1];
    if i < |ws| - 1 {
      forall j | 0 <= j < i ensures !WritesKey(init[j], k) {
        assert init[j] == ws[j];
      }
      FirstWinsValue(init, k, i);
    } else {
      FirstWinsDomain(init, k);
    }
  }

  /** Every entry of a last-write-wins dictionary comes from a write after which no
      other write touches that key. */
  lemma LastWinsEntry<K, V>(ws: seq<Option<(K, V)>>, k: K) returns (i: nat)
    requires k in LastWins(ws)
    ensures i < |ws| && WritesKey(ws[i], k)
    ensures forall j :: i < j < |ws| ==> !WritesKey(ws[j], k)
    ensures LastWins(ws)[k] == ws[i].value.1
  {
    LastWinsDomain(ws, k);
    var j :| 0 <= j < |ws| && WritesKey(ws[j], k);
    i := j;
    while exists m :: i < m < |ws| && WritesKey(ws[m], k)
      invariant i < |ws| && WritesKey(ws[i], k)
      decreases |ws| - i
    {
      var m :| i < m < |ws| && WritesKey(ws[m], k);
      i := m;
    }
    LastWinsValue(ws, k, i);
  }

  /** Every entry of a first-write-wins dictionary comes from the first write to it. */
  lemma FirstWinsEntry<K, V>(ws: seq<Option<(K, V)>>, k: K) returns (i: nat)
    requires k in FirstWins(ws)
    ensures i < |ws| && WritesKey(ws[i], k)
    ensures forall j :: 0 <= j < i ==> !WritesKey(ws[j], k)
    ensures FirstWins(ws)[k] == ws[i].value.1
  {
    FirstWinsDomain(ws, k);
    var j :| 0 <= j < |ws| && WritesKey(ws[j], k);
    i := j;
    while exists m :: 0 <= m < i && WritesKey(ws[m], k)
      invariant i < |ws| && WritesKey(ws[i], k)
      decreases i
    {
      var m :| 0 <= m < i && WritesKey(ws[m], k);
      i := m;
    }
    FirstWinsValue(ws, k, i);
  }
}
