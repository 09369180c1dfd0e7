/**
 * The employee card: the initials shown in its badge, computed as
 * `name.split(' ').map(n => n[0]).join('')`, and the paths of its View and Edit links.
 */
module Card {

  /** How many times `c` occurs in `s`. */
  function Occurrences(s: string, c: char): nat {
    if s == [] then 0 else (if s[0] == c then 1 else 0) + Occurrences(s[1..], c)
  }

  /**
   * `s.split(sep)`: the pieces between the separators, empty pieces included, so that
   * a string with n separators has n + 1 pieces, none of which holds a separator.
   */
  function Split(s: string, sep: char): (pieces: seq<string>)
    ensures |pieces| == Occurrences(s, sep) + 1
    ensures forall k :: 0 <= k < |pieces| ==> sep !in pieces[k]
  {
    if s == [] then [[]]
    else
      var rest := Split(s[1..], sep);
      if s[0] == sep then [[]] + rest
      else [[s[0]] + rest[0]] + rest[1..]
  }

  /** `pieces.join(sep)`. */
  function Join(pieces: seq<string>, sep: char): string {
    if pieces == [] then []
    else if |pieces| == 1 then pieces[0]
    else pieces[0] + [sep] + Join(pieces[1..], sep)
  }

  /** Splitting loses nothing: joining the pieces with the separator gives the string back. */
  lemma {:induction false} SplitJoin(s: string, sep: char)
    ensures Join(Split(s, sep), sep) == s
  {
    if s != [] {
      var rest := Split(s[1..], sep);
      SplitJoin(s[1..], sep);
      if s[0] == sep {
        assert s == [sep] + s[1..];
      } else if |rest| == 1 {
        assert s == [s[0]] + s[1..];
      } else {
        assert rest == [rest[0]] + rest[1..];
        assert s == [s[0]] + s[1..];
      }
    }
  }

  /** `n[0]` as `join('')` renders it: the first character, or nothing for an empty piece. */
  function FirstChar(piece: string): string {
    if piece == [] then [] else [piece[0]]
  }

  /** The first characters of the pieces, joined without a separator. */
  function JoinFirstChars(pieces: seq<string>): (r: string)
    ensures |r| <= |pieces|
    ensures forall c :: c in r ==> exists k :: 0 <= k < |pieces| && c in pieces[k]
  {
    if pieces == [] then []
    else
      var rest := JoinFirstChars(pieces[1..]);
      assert forall c :: c in rest ==> exists k :: 0 <= k < |pieces| && c in pieces[k] by {
        forall c | c in rest ensures exists k :: 0 <= k < |pieces| && c in pieces[k] {
          var k :| 0 <= k < |pieces[1..]| && c in pieces[1..][k];
          assert c in pieces[k + 1];
        }
      }
      FirstChar(pieces[0]) + rest
  }

  /** The initials of a name: the first character of each space-separated piece. */
  function Initials(name: string): (r: string)
    ensures ' ' !in r
    ensures |r| <= Occurrences(name, ' ') + 1
  {
    JoinFirstChars(Split(name, ' '))
  }

  /**
   * An independent description of the initials: the characters of `s` that are not
   * spaces and stand at the start of `s` (when `afterSpace` holds) or right after a space.
   */
  function WordStarts(s: string, afterSpace: bool): string {
    if s == [] then []
    else (if afterSpace && s[0] != ' ' then [s[0]] else []) + WordStarts(s[1..], s[0] == ' ')
  }

  /** The first piece of a split begins with the string's first character unless that is a separator. */
  lemma {:induction false} FirstPieceHead(s: string)
    ensures FirstChar(Split(s, ' ')[0]) == if s != [] && s[0] != ' ' then [s[0]] else []
  {
  }

  /** The pieces after the first contribute exactly the word starts that follow a space. */
  lemma {:induction false} LaterPiecesAreWordStarts(s: string)
    ensures JoinFirstChars(Split(s, ' ')[1..]) == WordStarts(s, false)
  {
    if s != [] {
      var t := s[1..];
      LaterPiecesAreWordStarts(t);
      if s[0] == ' ' {
        assert Split(s, ' ')[1..] == Split(t, ' ');
        FirstPieceHead(t);
        if t != [] {
          assert WordStarts(t, true) ==
            (if t[0] != ' ' then [t[0]] else []) + WordStarts(t, false);
        }
      } else {
        assert Split(s, ' ')[1..] == Split(t, ' ')[1..];
      }
    }
  }

  /** The initials are exactly the word starts of the name. */
  lemma InitialsAreWordStarts(name: string)
    ensures Initials(name) == WordStarts(name, true)
  {
    var pieces := Split(name, ' ');
    LaterPiecesAreWordStarts(name);
    FirstPieceHead(name);
    assert JoinFirstChars(pieces) == FirstChar(pieces[0]) + JoinFirstChars(pieces[1..]);
    if name != [] {
      assert WordStarts(name, true) ==
        (if name[0] != ' ' then [name[0]] else []) + WordStarts(name, false);
    }
  }

  /** A string without spaces has no word start after its first character. */
  lemma {:induction false} NoSpaceNoLaterStarts(s: string)
    requires ' ' !in s
    ensures WordStarts(s, false) == []
  {
    if s != [] {
      NoSpaceNoLaterStarts(s[1..]);
    }
  }

  /** A non-empty name without spaces has its first character as its initials. */
  lemma SingleWordInitials(name: string)
    requires name != [] && ' ' !in name
    ensures Initials(name) == [name[0]]
  {
    InitialsAreWordStarts(name);
    NoSpaceNoLaterStarts(name[1..]);
  }

  /** "John Doe" has the initials "JD". */
  lemma JohnDoeInitials()
    ensures Initials("John Doe") == "JD"
  {
    InitialsAreWordStarts("John Doe");
  }

  /** A trailing space adds no initial. */
  lemma {:induction false} TrailingSpaceStarts(s: string, afterSpace: bool)
    ensures WordStarts(s + " ", afterSpace) == WordStarts(s, afterSpace)
  {
    if s != [] {
      assert (s + " ")[1..] == s[1..] + " ";
      TrailingSpaceStarts(s[1..], s[0] == ' ');
    }
  }

  /** A doubled space counts as one. */
  lemma {:induction false} DoubledSpaceStarts(a: string, b: string, afterSpace: bool)
    ensures WordStarts(a + "  " + b, afterSpace) == WordStarts(a + " " + b, afterSpace)
  {
    if a == [] {
      assert (a + "  " + b)[1..] == " " + b;
      assert (a + " " + b)[1..] == b;
    } else {
      assert (a + "  " + b)[1..] == a[1..] + "  " + b;
      assert (a + " " + b)[1..] == a[1..] + " " + b;
      DoubledSpaceStarts(a[1..], b, a[0] == ' ');
    }
  }

  /** Leading, trailing and doubled spaces leave no trace in the initials. */
  lemma ExtraSpacesIgnored(name: string, a: string, b: string)
    ensures Initials(" " + name) == Initials(name)
    ensures Initials(name + " ") == Initials(name)
    ensures Initials(a + "  " + b) == Initials(a + " " + b)
  {
    InitialsAreWordStarts(name);
    InitialsAreWordStarts(" " + name);
    assert (" " + name)[1..] == name;
    InitialsAreWordStarts(name + " ");
    TrailingSpaceStarts(name, true);
    InitialsAreWordStarts(a + "  " + b);
    InitialsAreWordStarts(a + " " + b);
    DoubledSpaceStarts(a, b, true);
  }

  /** The path of an employee's detail page, from which the id can be read back. */
  function ViewPath(id: string): (p: string)
    ensures "/employees/" <= p && p[|"/employees/"|..] == id
  {
    "/employees/" + id
  }

  /** The path of an employee's edit page: the detail path followed by "/edit". */
  function EditPath(id: string): (p: string)
    ensures ViewPath(id) <= p && p[|ViewPath(id)|..] == "/edit"
  {
    ViewPath(id) + "/edit"
  }

  /** Different employees have different detail and edit paths. */
  lemma PathsIdentifyEmployee(id1: string, id2: string)
    requires id1 != id2
    ensures ViewPath(id1) != ViewPath(id2) && EditPath(id1) != EditPath(id2)
  {
  }
}
