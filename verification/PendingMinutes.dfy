/** The agent's pending minutes, updated in place and saved after every change. */
module PendingMinutes {
  import opened Prelude
  import opened PendingLog

  // ---- What an update means ------------------------------------------------------------------

  /** Why a file cannot be read as text. */
  datatype ReadError = FileNotFound | OtherFailure

  /** The minutes in memory and those a reload would find. */
  datatype Pending = Pending(mem: set<int>, disk: set<int>)

  function Inserted(p: Pending, minute: int, saveOk: bool): Pending {
    if minute in p.mem then p
    else Pending(p.mem + {minute}, if saveOk then p.mem + {minute} else p.disk)
  }

  /** A failed save puts the sent minutes back. */
  function Marked(p: Pending, sent: set<int>, saveOk: bool): Pending {
    if sent !! p.mem then p
    else if saveOk then Pending(p.mem - sent, p.mem - sent)
    else Pending(p.mem + sent, p.disk)
  }

  // ---- The ordered set -----------------------------------------------------------------------

  function With(xs: seq<int>, v: int): seq<int> {
    if xs == [] then [v]
    else
      var last := xs[|xs| - 1];
      if last < v then xs + [v]
      else if last == v then xs
      else With(xs[..|xs| - 1], v) + [last]
  }

  function Without(xs: seq<int>, v: int): seq<int> {
    if xs == [] then []
    else
      var last := xs[|xs| - 1];
      if last == v then xs[..|xs| - 1] else Without(xs[..|xs| - 1], v) + [last]
  }

  lemma {:induction false} BelowElements(xs: seq<int>, bound: int, v: int)
    requires Below(xs, bound) && bound <= v
    ensures v !in Elements(xs)
  {
    if xs != [] {
      BelowElements(xs[..|xs| - 1], bound, v);
    }
  }

  lemma {:induction false} StaysBelow(xs: seq<int>, v: int, bound: int)
    requires Below(xs, bound)
    ensures v < bound ==> Below(With(xs, v), bound)
    ensures Below(Without(xs, v), bound)
  {
    if xs != [] {
      StaysBelow(xs[..|xs| - 1], v, bound);
    }
  }

  lemma {:induction false} StaysAscending(xs: seq<int>, v: int)
    requires Ascending(xs)
    ensures Ascending(With(xs, v)) && Ascending(Without(xs, v))
  {
    if xs == [] {
      AscendingSnoc([], v);
      assert [] + [v] == [v];
    } else {
      var n := |xs| - 1;
      var front, last := xs[..n], xs[n];
      StaysAscending(front, v);
      StaysBelow(front, v, last);
      if last < v {
        AscendingSnoc(xs, v);
      } else if v < last {
        AscendingSnoc(With(front, v), last);
      }
      if last != v {
        AscendingSnoc(Without(front, v), last);
      }
    }
  }

  lemma ElementsSnoc(xs: seq<int>, v: int)
    ensures Elements(xs + [v]) == Elements(xs) + {v}
  {
    assert (xs + [v])[..|xs|] == xs;
  }

  lemma {:induction false} WithElements(xs: seq<int>, v: int)
    requires Ascending(xs)
    ensures Elements(With(xs, v)) == Elements(xs) + {v}
    ensures v in Elements(xs) <==> With(xs, v) == xs
    ensures |With(xs, v)| == |xs| + if v in Elements(xs) then 0 else 1
  {
    if xs == [] {
      ElementsSnoc([], v);
      assert [] + [v] == [v];
    } else {
      var n := |xs| - 1;
      var front, last := xs[..n], xs[n];
      if last < v {
        BelowElements(front, last, v);
        ElementsSnoc(xs, v);
      } else if v < last {
        WithElements(front, v);
        ElementsSnoc(With(front, v), last);
        if v in Elements(front) {
          assert With(xs, v) == front + [last] == xs;
        }
      }
    }
  }

  lemma {:induction false} WithoutElements(xs: seq<int>, v: int)
    requires Ascending(xs)
    ensures Elements(Without(xs, v)) == Elements(xs) - {v}
    ensures v !in Elements(xs) <==> Without(xs, v) == xs
    ensures |Without(xs, v)| == |xs| - if v in Elements(xs) then 1 else 0
  {
    if xs != [] {
      var n := |xs| - 1;
      var front, last := xs[..n], xs[n];
      if last == v {
        BelowElements(front, last, v);
      } else {
        WithoutElements(front, v);
        ElementsSnoc(Without(front, v), last);
        if v !in Elements(front) {
          assert Without(xs, v) == front + [last] == xs;
        }
      }
    }
  }

  lemma LastElement(xs: seq<int>)
    requires xs != []
    ensures !(Elements(xs) !! Elements(xs))
  {
    assert xs[|xs| - 1] in Elements(xs);
  }

  lemma WithIs(xs: seq<int>, v: int)
    requires Ascending(xs)
    ensures Ascending(With(xs, v)) && Elements(With(xs, v)) == Elements(xs) + {v}
    ensures v in Elements(xs) <==> With(xs, v) == xs
  {
    StaysAscending(xs, v);
    WithElements(xs, v);
  }

  lemma WithoutIs(xs: seq<int>, v: int)
    requires Ascending(xs)
    ensures Ascending(Without(xs, v)) && Elements(Without(xs, v)) == Elements(xs) - {v}
    ensures v !in Elements(xs) <==> Without(xs, v) == xs
  {
    StaysAscending(xs, v);
    WithoutElements(xs, v);
  }

  ghost predicate AllI64(xs: seq<int>) {
    forall i | 0 <= i < |xs| :: IsI64(xs[i])
  }

  lemma {:induction false} StaysI64(xs: seq<int>, v: int)
    requires AllI64(xs)
    ensures IsI64(v) ==> AllI64(With(xs, v))
    ensures AllI64(Without(xs, v))
  {
    if xs != [] {
      StaysI64(xs[..|xs| - 1], v);
    }
  }

  // ---- The object ----------------------------------------------------------------------------

  class PendingMinutes {
    var minutes: seq<int>
    var file: Option<string>

    ghost predicate Valid()
      reads this
    {
      Ascending(minutes) && AllI64(minutes)
    }

    /** What is in memory and what a reload would find; a missing file holds nothing. */
    ghost function View(): Pending
      reads this
    {
      Pending(Elements(minutes), if file.Some? then Parse(file.value) else {})
    }

    constructor (minutes: seq<int>, file: Option<string>)
      requires Ascending(minutes) && AllI64(minutes)
      ensures Valid() && this.minutes == minutes && this.file == file
    {
      this.minutes, this.file := minutes, file;
    }

    /** Load the log from what reading the file gave. A missing file is an empty log; any other failure, bytes
      * that are not text included, is an error. Memory and disk agree afterwards. */
    static method Load(read: Result<string, ReadError>) returns (result: Result<PendingMinutes, ReadError>)
      ensures result.Err? <==> read == Err(OtherFailure)
      ensures result.Err? ==> result.error == OtherFailure
      ensures result.Ok? ==>
        && fresh(result.value) && result.value.Valid()
        && result.value.file == (if read.Ok? then Some(read.value) else None)
        && result.value.View().mem == result.value.View().disk
    {
      match read {
        case Err(OtherFailure) => return Err(OtherFailure);
        case Err(FileNotFound) =>
          var empty := new PendingMinutes([], None);
          return Ok(empty);
        case Ok(contents) =>
          var minutes := Collect(contents);
          var loaded := new PendingMinutes(minutes, Some(contents));
          return Ok(loaded);
      }
    }

    /** The minutes of all lines that hold one. */
    static method Collect(contents: string) returns (minutes: seq<int>)
      ensures Ascending(minutes) && AllI64(minutes) && Elements(minutes) == Parse(contents)
    {
      var lines := Lines(contents);
      minutes := [];
      var i := 0;
      assert lines[0..] == lines;
      while i < |lines|
        invariant i <= |lines| && Ascending(minutes) && AllI64(minutes)
        invariant Elements(minutes) + ParseLines(lines[i..]) == Parse(contents)
      {
        ParseFirst(lines[i..]);
        assert lines[i..][1..] == lines[i + 1..];
        var parsed := ParseLine(lines[i]);
        if parsed.Some? {
          WithIs(minutes, parsed.value);
          StaysI64(minutes, parsed.value);
          AddParsed(Elements(minutes), parsed.value, ParseLines(lines[i + 1..]));
          minutes := With(minutes, parsed.value);
        }
        i := i + 1;
      }
    }

    static lemma ParseFirst(lines: seq<string>)
      requires lines != []
      ensures ParseLines(lines)
              == ParseLines(lines[1..]) + match ParseLine(lines[0]) case None => {} case Some(v) => {v}
      ensures ParseLine(lines[0]).Some? ==> IsI64(ParseLine(lines[0]).value)
    {
    }

    static lemma AddParsed(before: set<int>, v: int, rest: set<int>)
      ensures before + {v} + rest == before + (rest + {v})
    {
    }

    predicate IsEmpty()
      reads this
    {
      minutes == []
    }

    function Snapshot(): seq<int>
      reads this
    {
      minutes
    }

    /** Write every minute on a line of its own; all or nothing. */
    method Save(writeOk: bool) returns (ok: bool)
      requires Valid()
      modifies this`file
      ensures ok == writeOk
      ensures View() == Pending(old(View()).mem, if ok then old(View()).mem else old(View()).disk)
    {
      var contents := "";
      for i := 0 to |minutes|
        invariant contents == Serialize(minutes[..i])
      {
        assert minutes[..i + 1][..i] == minutes[..i];
        contents := contents + Display(minutes[i]) + "\n";
      }
      assert minutes[..|minutes|] == minutes;
      if !writeOk {
        return false;
      }
      LoadSaved(minutes);
      file := Some(contents);
      return true;
    }

    method Insert(minute: int, writeOk: bool) returns (ok: bool)
      requires Valid() && IsI64(minute)
      modifies this
      ensures Valid() && View() == Inserted(old(View()), minute, writeOk)
      ensures ok <==> minute in old(View()).mem || writeOk
      ensures minutes == With(old(minutes), minute) != []
    {
      WithIs(minutes, minute);
      StaysI64(minutes, minute);
      var inserted := With(minutes, minute);
      if inserted != minutes {
        minutes := inserted;
        ok := Save(writeOk);
      } else {
        ok := true;
      }
    }

    method MarkSent(sent: seq<int>, writeOk: bool) returns (ok: bool)
      requires Valid() && AllI64(sent)
      modifies this
      ensures Valid() && View() == Marked(old(View()), Elements(sent), writeOk)
      ensures ok <==> Elements(sent) !! old(View()).mem || writeOk
    {
      if |sent| == 0 {
        return true;
      }
      var changed := RemoveAll(sent);
      if changed {
        ok := Save(writeOk);
        if !ok {
          InsertAll(sent);
        }
      } else {
        ok := true;
      }
    }

    method RemoveAll(sent: seq<int>) returns (changed: bool)
      requires Valid()
      modifies this`minutes
      ensures Valid() && Elements(minutes) == Elements(old(minutes)) - Elements(sent)
      ensures changed <==> !(Elements(sent) !! Elements(old(minutes)))
    {
      changed := false;
      ghost var before := Elements(minutes);
      for i := 0 to |sent|
        invariant Valid() && Elements(minutes) == before - Elements(sent[..i])
        invariant changed <==> !(Elements(sent[..i]) !! before)
      {
        assert sent[..i + 1][..i] == sent[..i];
        WithoutIs(minutes, sent[i]);
        StaysI64(minutes, sent[i]);
        var removed := Without(minutes, sent[i]);
        if removed != minutes {
          minutes := removed;
          changed := true;
        }
      }
      assert sent[..|sent|] == sent;
    }

    method InsertAll(sent: seq<int>)
      requires Valid() && AllI64(sent)
      modifies this`minutes
      ensures Valid() && Elements(minutes) == Elements(old(minutes)) + Elements(sent)
    {
      ghost var before := Elements(minutes);
      for i := 0 to |sent|
        invariant Valid() && Elements(minutes) == before + Elements(sent[..i])
      {
        assert sent[..i + 1][..i] == sent[..i];
        WithIs(minutes, sent[i]);
        StaysI64(minutes, sent[i]);
        minutes := With(minutes, sent[i]);
      }
      assert sent[..|sent|] == sent;
    }
  }
}
