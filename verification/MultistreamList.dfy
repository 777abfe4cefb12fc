/** What `list` of `libp2p/multistream.nim` makes of the answer to `ls`. */
module MultistreamList {
  import opened Multistream

  /** The pieces between the newlines. */
  function Split(s: string): (r: seq<string>)
    ensures r != []
  {
    if s == "" then [""]
    else
      var rest := Split(s[1..]);
      if s[0] == '\n' then [""] + rest else [[s[0]] + rest[0]] + rest[1..]
  }

  function NonEmpty(pieces: seq<string>): seq<string> {
    if pieces == [] then []
    else NonEmpty(pieces[..|pieces| - 1]) + if pieces[|pieces| - 1] != "" then [pieces[|pieces| - 1]] else []
  }

  /** A name a list can carry. */
  predicate Listable(name: string) {
    name != "" && '\n' !in name
  }

  method ReadList(ms: string) returns (list: seq<string>)
    ensures list == NonEmpty(Split(ms))
  {
    list := [];
    var pieces := Split(ms);
    for i := 0 to |pieces|
      invariant list == NonEmpty(pieces[..i])
    {
      assert pieces[..i + 1][..i] == pieces[..i];
      if |pieces[i]| > 0 {
        list := list + [pieces[i]];
      }
    }
    assert pieces[..|pieces|] == pieces;
  }

  lemma {:induction false} PiecesAreLines(s: string)
    ensures forall i :: 0 <= i < |Split(s)| ==> '\n' !in Split(s)[i]
  {
    if s != "" {
      PiecesAreLines(s[1..]);
      var rest := Split(s[1..]);
      assert rest[0] in rest;
      forall i | 0 <= i < |Split(s)|
        ensures '\n' !in Split(s)[i]
      {
        if i > 0 {
          assert Split(s)[i] == if s[0] == '\n' then rest[i - 1] else rest[1..][i - 1];
        }
      }
    }
  }

  /** A line ahead of the rest is the first piece. */
  lemma {:induction false} SplitLine(x: string, y: string)
    requires '\n' !in x
    ensures Split(x + "\n" + y) == [x] + Split(y)
    decreases |x|
  {
    var s := x + "\n" + y;
    if x == "" {
      assert s[0] == '\n' && s[1..] == y;
    } else {
      assert s[0] == x[0] && s[1..] == x[1..] + "\n" + y;
      SplitLine(x[1..], y);
      assert x == [x[0]] + x[1..];
    }
  }

  lemma {:induction false} NonEmptyFirst(x: string, pieces: seq<string>)
    ensures NonEmpty([x] + pieces) == (if x != "" then [x] else []) + NonEmpty(pieces)
    decreases |pieces|
  {
    var all := [x] + pieces;
    if pieces == [] {
      assert all[..0] == [];
    } else {
      assert all[..|all| - 1] == [x] + pieces[..|pieces| - 1];
      NonEmptyFirst(x, pieces[..|pieces| - 1]);
    }
  }

  lemma {:induction false} NonEmptyHas(pieces: seq<string>, x: string)
    ensures x in NonEmpty(pieces) <==> x in pieces && x != ""
  {
    if pieces != [] {
      NonEmptyHas(pieces[..|pieces| - 1], x);
      assert pieces == pieces[..|pieces| - 1] + [pieces[|pieces| - 1]];
    }
  }

  /** The answer to `ls`, one name at a time. */
  lemma {:induction false} LinesFirst(protos: seq<string>)
    requires protos != []
    ensures Line(Lines(protos)) == protos[0] + "\n" + if |protos| == 1 then "" else Line(Lines(protos[1..]))
  {
    if |protos| > 1 {
      assert protos[0] + "\n" + Lines(protos[1..]) + "\n" == protos[0] + "\n" + (Lines(protos[1..]) + "\n");
    }
  }

  lemma {:induction false} NothingListed()
    ensures NonEmpty(Split("")) == [] && NonEmpty(Split(Line(""))) == []
  {
    hide Split, NonEmpty;
    assert Split("") == [""] && NonEmpty([]) == [] by {
      Ends();
    }
    assert Line("") == "" + "\n" + "";
    SplitLine("", "");
    NonEmptyFirst("", []);
    NonEmptyFirst("", [""]);
    assert [""] + [] == [""];
  }

  lemma {:induction false} Ends()
    ensures Split("") == [""] && NonEmpty([]) == []
  {
  }

  lemma {:induction false} ListsBack(protos: seq<string>)
    requires forall i :: 0 <= i < |protos| ==> Listable(protos[i])
    ensures NonEmpty(Split(Line(Lines(protos)))) == protos
    decreases |protos|
  {
    hide Split, NonEmpty, Line;
    NothingListed();
    if protos != [] {
      hide Lines;
      var x := protos[0];
      assert Listable(x);
      var rest := if |protos| == 1 then "" else Line(Lines(protos[1..]));
      LinesFirst(protos);
      SplitLine(x, rest);
      NonEmptyFirst(x, Split(rest));
      if |protos| > 1 {
        ListsBack(protos[1..]);
      }
      assert protos == [x] + protos[1..];
    }
  }

  /** The answer to `ls` reads back as the protocols of the listener exactly when every name is listable. */
  lemma {:induction false} ListsBackIff(protos: seq<string>)
    ensures NonEmpty(Split(Line(Lines(protos)))) == protos <==>
            forall i :: 0 <= i < |protos| ==> protos[i] != "" && '\n' !in protos[i]
  {
    hide Split, NonEmpty, Line, Lines;
    if forall i :: 0 <= i < |protos| ==> Listable(protos[i]) {
      ListsBack(protos);
    }
    var pieces := Split(Line(Lines(protos)));
    if NonEmpty(pieces) == protos {
      forall i | 0 <= i < |protos|
        ensures Listable(protos[i])
      {
        NonEmptyHas(pieces, protos[i]);
        PiecesAreLines(Line(Lines(protos)));
      }
    }
  }
}
