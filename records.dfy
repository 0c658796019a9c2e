/**
 * The `results` array that `search` grows by index. A record is a JavaScript
 * object holding some of the eight search fields; a slot of the array is
 * either a record or a hole (an index never written).
 */
module Records {
  import opened Options

  /** The keys `search` writes into a result record. */
  datatype Field =
    | BookId
    | ImageUrl
    | Title
    | Author
    | InfoUsers
    | InfoRating
    | InfoReviews
    | AmazonUrl

  /** A result object: the fields written so far and their string values. */
  type Record = map<Field, string>

  /** One array slot; `None` is a hole. */
  type Slot = Option<Record>

  function Max(a: int, b: int): int
  {
    if a < b then b else a
  }

  /** `results[i] || {}`: the record at index i, or a fresh empty one. */
  function RecordAt(r: seq<Slot>, i: nat): Record
  {
    if i < |r| && r[i].Some? then r[i].value else map[]
  }

  function Holes(n: nat): (h: seq<Slot>)
    ensures |h| == n
    ensures forall i :: 0 <= i < n ==> h[i] == None
  {
    seq(n, _ => None)
  }

  /**
   * `Object.assign(results[index] || (results[index] = {}), {[f]: v})`: field
   * f of record `index` becomes v; the record's other fields, every other
   * slot, and the array below `index` are left as they were; writing past the
   * end grows the array, leaving holes in between.
   */
  function Assign(r: seq<Slot>, index: nat, f: Field, v: string): (r': seq<Slot>)
    ensures |r'| == Max(|r|, index + 1)
    ensures r'[index].Some? && r'[index].value == RecordAt(r, index)[f := v]
    ensures forall g :: g != f ==> (g in r'[index].value <==> g in RecordAt(r, index))
    ensures forall g :: g != f && g in RecordAt(r, index) ==> r'[index].value[g] == RecordAt(r, index)[g]
    ensures forall j :: 0 <= j < |r| && j != index ==> r'[j] == r[j]
    ensures forall j :: |r| <= j < |r'| && j != index ==> r'[j] == None
  {
    var record := RecordAt(r, index)[f := v];
    if index < |r| then r[index := Some(record)]
    else r + Holes(index - |r|) + [Some(record)]
  }

  /**
   * The array after a whole pass over field f with values vs: record i has f
   * set to vs[i] for every i < |vs|; all other slots are untouched.
   */
  function PassResult(r: seq<Slot>, f: Field, vs: seq<string>): (r': seq<Slot>)
    ensures |r'| == Max(|r|, |vs|)
  {
    seq(Max(|r|, |vs|), i requires 0 <= i < Max(|r|, |vs|) =>
      if i < |vs| then Some(RecordAt(r, i)[f := vs[i]]) else r[i])
  }

  /** A pass with no values keeps the array. */
  lemma PassResultEmpty(r: seq<Slot>, f: Field)
    ensures PassResult(r, f, []) == r
  {
  }

  /**
   * Writing one more value at the next index extends a pass: since a pass
   * writes indices 0, 1, 2, ... in turn and index |vs| is never past the
   * array's end, no pass ever leaves a hole.
   */
  lemma AssignExtendsPass(r: seq<Slot>, f: Field, vs: seq<string>, v: string)
    ensures Assign(PassResult(r, f, vs), |vs|, f, v) == PassResult(r, f, vs + [v])
  {
    var before := PassResult(r, f, vs);
    var lhs := Assign(before, |vs|, f, v);
    var rhs := PassResult(r, f, vs + [v]);
    assert RecordAt(before, |vs|) == RecordAt(r, |vs|);
    forall i | 0 <= i < |lhs|
      ensures lhs[i] == rhs[i]
    {
      if i < |vs| {
        assert lhs[i] == before[i];
      }
    }
  }

  /** The record a pass leaves at index i. */
  lemma RecordAtPass(r: seq<Slot>, f: Field, vs: seq<string>, i: nat)
    ensures RecordAt(PassResult(r, f, vs), i)
         == if i < |vs| then RecordAt(r, i)[f := vs[i]] else RecordAt(r, i)
  {
  }

  /**
   * Passes over different fields commute: the order in which the passes run
   * does not change the array they produce.
   */
  lemma PassesCommute(r: seq<Slot>, f: Field, vs: seq<string>, g: Field, ws: seq<string>)
    requires f != g
    ensures PassResult(PassResult(r, f, vs), g, ws) == PassResult(PassResult(r, g, ws), f, vs)
  {
    var fg := PassResult(PassResult(r, f, vs), g, ws);
    var gf := PassResult(PassResult(r, g, ws), f, vs);
    assert |fg| == |gf|;
    forall i | 0 <= i < |fg|
      ensures fg[i] == gf[i]
    {
      RecordAtPass(r, f, vs, i);
      RecordAtPass(r, g, ws, i);
      if i < |vs| && i < |ws| {
        assert RecordAt(r, i)[f := vs[i]][g := ws[i]] == RecordAt(r, i)[g := ws[i]][f := vs[i]];
      }
    }
  }

  /** A pass over an array without holes leaves no holes. */
  lemma PassKeepsDense(r: seq<Slot>, f: Field, vs: seq<string>)
    requires forall i :: 0 <= i < |r| ==> r[i].Some?
    ensures forall i :: 0 <= i < |PassResult(r, f, vs)| ==> PassResult(r, f, vs)[i].Some?
  {
  }
}
