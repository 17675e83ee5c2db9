/**
 * The string handling of the seat-selection window (`FBS2_W/SeatSelectionWindow.xaml.cs`):
 * turning the server's seat-list reply into the labels offered to the user, the booking
 * request it sends and the test of the booking reply, and the e-mail address check
 * done before a ticket is sent.
 */
module SeatClient {
  import opened Text
  import opened Protocol

  // ---------------------------------------------------------------------------------
  // The seat-list reply
  // ---------------------------------------------------------------------------------

  const SeatsPrefix: string := "Seats:"
  const Comma: set<char> := {','}

  /** What `LoadSeats` ends with: a message, or the labels put into the list box. */
  datatype SeatsView =
    | EmptyReply                        // "the server's reply is empty"
    | NoSeats                           // "no seats available for the flight"
    | SeatChoices(labels: seq<string>)

  /** `Split(new[] { ',' }, RemoveEmptyEntries)` drops the empty pieces of a split. */
  function DropEmpty(pieces: seq<string>): (r: seq<string>)
    ensures |r| <= |pieces|
    ensures forall i :: 0 <= i < |r| ==> r[i] != [] && r[i] in pieces
    ensures multiset(r) == multiset(pieces)["" := 0]
    ensures (forall i :: 0 <= i < |pieces| ==> pieces[i] != []) ==> r == pieces
  {
    NonEmptyCounts(pieces);
    NonEmptyMembers(pieces);
    NonEmptyKeepsAll(pieces);
    NonEmpty(pieces)
  }

  /** The non-empty pieces, in their order. Lengths are compared rather than strings, which keeps the proofs about it cheap. */
  function NonEmpty(pieces: seq<string>): seq<string> {
    if |pieces| == 0 then []
    else if |pieces[0]| == 0 then NonEmpty(pieces[1..])
    else [pieces[0]] + NonEmpty(pieces[1..])
  }

  lemma {:induction false} NonEmptyCounts(pieces: seq<string>)
    ensures multiset(NonEmpty(pieces)) == multiset(pieces)["" := 0]
  {
    if |pieces| > 0 {
      var tail := pieces[1..];
      NonEmptyCounts(tail);
      assert pieces == [pieces[0]] + tail;
      assert multiset(pieces) == multiset{pieces[0]} + multiset(tail);
    }
  }

  lemma {:induction false} NonEmptyMembers(pieces: seq<string>)
    ensures |NonEmpty(pieces)| <= |pieces|
    ensures forall i :: 0 <= i < |NonEmpty(pieces)| ==> NonEmpty(pieces)[i] != [] && NonEmpty(pieces)[i] in pieces
  {
    if |pieces| > 0 {
      NonEmptyMembers(pieces[1..]);
      var r, t := NonEmpty(pieces), NonEmpty(pieces[1..]);
      forall i | 0 <= i < |r| ensures r[i] != [] && r[i] in pieces {
        if |pieces[0]| == 0 || i > 0 {
          var k := if |pieces[0]| > 0 then i - 1 else i;
          assert r[i] == t[k];
          assert t[k] in pieces[1..];
        }
      }
    }
  }

  lemma {:induction false} NonEmptyKeepsAll(pieces: seq<string>)
    ensures (forall i :: 0 <= i < |pieces| ==> pieces[i] != []) ==> NonEmpty(pieces) == pieces
  {
    if |pieces| > 0 && forall i :: 0 <= i < |pieces| ==> pieces[i] != [] {
      NonEmptyKeepsAll(pieces[1..]);
      assert pieces == [pieces[0]] + pieces[1..];
    }
  }

  /** Dropping empty pieces keeps the order: it works on each part of a list separately. */
  lemma DropEmptyConcat(a: seq<string>, b: seq<string>)
    ensures DropEmpty(a + b) == DropEmpty(a) + DropEmpty(b)
  {
    NonEmptyConcat(a, b);
  }

  lemma {:induction false} NonEmptyConcat(a: seq<string>, b: seq<string>)
    ensures NonEmpty(a + b) == NonEmpty(a) + NonEmpty(b)
  {
    if |a| == 0 {
      assert a + b == b;
    } else {
      NonEmptyConcat(a[1..], b);
      assert (a + b)[0] == a[0] && (a + b)[1..] == a[1..] + b;
      if |a[0]| > 0 {
        assert [a[0]] + (NonEmpty(a[1..]) + NonEmpty(b)) == ([a[0]] + NonEmpty(a[1..])) + NonEmpty(b);
      }
    }
  }

  /** `.Select(seat => seat.Trim())`. */
  function TrimEach(pieces: seq<string>): (r: seq<string>)
    ensures |r| == |pieces| && forall i :: 0 <= i < |pieces| ==> r[i] == Trim(pieces[i])
  {
    if pieces == [] then [] else [Trim(pieces[0])] + TrimEach(pieces[1..])
  }

  /**
   * The parsing in `LoadSeats`: an empty reply stops at once; the `Seats:` prefix is
   * removed (with the text then trimmed) only when present; the rest is split at commas,
   * empty pieces dropped and each piece trimmed.
   */
  function LoadSeats(reply: string): (view: SeatsView)
    ensures view == EmptyReply <==> reply == ""
    ensures view.SeatChoices? ==> |view.labels| >= 1
  {
    if reply == "" then EmptyReply
    else
      var text := if StartsWith(reply, SeatsPrefix) then Trim(reply[|SeatsPrefix|..]) else reply;
      var seats := TrimEach(DropEmpty(Split(text, Comma)));
      if |seats| == 0 then NoSeats else SeatChoices(seats)
  }

  /** A label the server can send so that the window reads it back unchanged. */
  predicate IsPlainLabel(name: string) {
    name != [] && Avoids(name, Comma) && IsTrimmed(name)
  }

  /** Every piece after the first, with the space that follows `,` in `", "` put back. */
  function Spaced(labels: seq<string>): (r: seq<string>)
    ensures |r| == |labels| && forall i :: 0 <= i < |labels| ==> r[i] == " " + labels[i]
  {
    if labels == [] then [] else [" " + labels[0]] + Spaced(labels[1..])
  }

  /** Joining with `", "` is joining with `,` after a space is put in front of each later label. */
  lemma {:induction false} SpacedJoin(labels: seq<string>)
    requires |labels| >= 1
    ensures " " + Join(labels, ", ") == Join(Spaced(labels), ",")
  {
    if |labels| > 1 {
      SpacedJoin(labels[1..]);
      assert Spaced(labels)[1..] == Spaced(labels[1..]);
    }
  }

  /** A join of non-empty pieces starts with the first piece's first character and ends with the last piece's last. */
  lemma {:induction false} JoinEnds(parts: seq<string>, separator: string)
    requires |parts| >= 1 && forall i :: 0 <= i < |parts| ==> parts[i] != []
    ensures var j := Join(parts, separator);
      && j != []
      && j[0] == parts[0][0]
      && j[|j| - 1] == parts[|parts| - 1][|parts[|parts| - 1]| - 1]
  {
    if |parts| > 1 {
      JoinEnds(parts[1..], separator);
    }
  }

  /** After the prefix is removed and the rest trimmed, the joined labels are left. */
  lemma SeatListText(labels: seq<string>)
    requires |labels| >= 1
    requires forall i :: 0 <= i < |labels| ==> IsPlainLabel(labels[i])
    ensures var reply := Render(SeatList(labels));
      StartsWith(reply, SeatsPrefix) && Trim(reply[|SeatsPrefix|..]) == Join(labels, ", ")
  {
    JoinedLabelsTrimmed(labels);
    SeatsReplyShape(Join(labels, ", "));
    RenderSeatList(labels);
  }

  lemma RenderSeatList(labels: seq<string>)
    ensures Render(SeatList(labels)) == "Seats: " + Join(labels, ", ")
  {
  }

  /** The joined labels start and end with a label's own first and last character. */
  lemma JoinedLabelsTrimmed(labels: seq<string>)
    requires |labels| >= 1
    requires forall i :: 0 <= i < |labels| ==> IsPlainLabel(labels[i])
    ensures IsTrimmed(Join(labels, ", "))
  {
    JoinEnds(labels, ", ");
  }

  /** `Seats: ` is the prefix followed by one space, which `Trim` removes again. */
  lemma SeatsReplyShape(x: string)
    requires IsTrimmed(x)
    ensures StartsWith("Seats: " + x, SeatsPrefix)
    ensures Trim(("Seats: " + x)[|SeatsPrefix|..]) == x
  {
    assert ("Seats: " + x)[..6] == SeatsPrefix;
    assert ("Seats: " + x)[|SeatsPrefix|..] == " " + x;
    TrimLeadingSpace(x);
  }

  lemma CommaThenSpace(head: string, tail: string)
    ensures head + "," + (" " + tail) == head + ", " + tail
  {
    assert head + ", " == (head + ",") + " ";
  }

  /** Splitting the joined labels at commas leaves the first label and the later ones with their space. */
  lemma SplitSeatList(labels: seq<string>)
    requires |labels| >= 1
    requires forall i :: 0 <= i < |labels| ==> Avoids(labels[i], Comma)
    ensures Split(Join(labels, ", "), Comma) == [labels[0]] + Spaced(labels[1..])
  {
    var pieces := [labels[0]] + Spaced(labels[1..]);
    if |labels| == 1 {
      SplitWhole(labels[0], Comma);
      assert pieces == [labels[0]];
    } else {
      JoinedAsSpaced(labels);
      SpacedPiecesAvoid(labels);
      SplitJoin(pieces, ',', Comma);
    }
  }

  /** `a, b, c` is `a` joined by `,` to ` b` and ` c`. */
  lemma JoinedAsSpaced(labels: seq<string>)
    requires |labels| >= 2
    ensures Join(labels, ", ") == Join([labels[0]] + Spaced(labels[1..]), [','])
  {
    var pieces := [labels[0]] + Spaced(labels[1..]);
    var tail := Join(labels[1..], ", ");
    SpacedJoin(labels[1..]);
    assert pieces[1..] == Spaced(labels[1..]);
    assert Join(pieces, ",") == labels[0] + "," + Join(Spaced(labels[1..]), ",");
    CommaThenSpace(labels[0], tail);
  }

  lemma SpacedPiecesAvoid(labels: seq<string>)
    requires |labels| >= 1
    requires forall i :: 0 <= i < |labels| ==> Avoids(labels[i], Comma)
    ensures var pieces := [labels[0]] + Spaced(labels[1..]);
      forall i :: 0 <= i < |pieces| ==> Avoids(pieces[i], Comma)
  {
    var pieces := [labels[0]] + Spaced(labels[1..]);
    forall i | 0 <= i < |pieces| ensures Avoids(pieces[i], Comma) {
      if i > 0 {
        assert pieces[i] == " " + labels[i];
      }
    }
  }

  /** Trimming the split pieces gives back the labels. */
  lemma TrimSpacedPieces(labels: seq<string>)
    requires |labels| >= 1
    requires forall i :: 0 <= i < |labels| ==> IsPlainLabel(labels[i])
    ensures TrimEach(DropEmpty([labels[0]] + Spaced(labels[1..]))) == labels
  {
    var pieces := [labels[0]] + Spaced(labels[1..]);
    forall i | 0 <= i < |pieces| ensures pieces[i] != [] && Trim(pieces[i]) == labels[i] {
      if i > 0 {
        assert pieces[i] == " " + labels[i];
        TrimLeadingSpace(labels[i]);
      }
    }
    assert DropEmpty(pieces) == pieces;
  }

  /**
   * The window reads back exactly the labels the server listed, provided each label is
   * non-empty, has no comma and no surrounding white space.
   */
  lemma SeatListRoundTrip(labels: seq<string>)
    requires |labels| >= 1
    requires forall i :: 0 <= i < |labels| ==> IsPlainLabel(labels[i])
    ensures LoadSeats(Render(SeatList(labels))) == SeatChoices(labels)
  {
    SeatListText(labels);
    SplitSeatList(labels);
    TrimSpacedPieces(labels);
  }

  /**
   * Every label the window offers has no comma and no surrounding white space; it may be
   * empty, since empty pieces are dropped before trimming.
   */
  lemma ParsedLabelsArePlain(reply: string)
    ensures var view := LoadSeats(reply);
      view.SeatChoices? ==>
        forall i :: 0 <= i < |view.labels| ==> Avoids(view.labels[i], Comma) && IsTrimmed(view.labels[i])
  {
    var view := LoadSeats(reply);
    if view.SeatChoices? {
      var text := if StartsWith(reply, SeatsPrefix) then Trim(reply[|SeatsPrefix|..]) else reply;
      var kept := DropEmpty(Split(text, Comma));
      forall i | 0 <= i < |view.labels| ensures Avoids(view.labels[i], Comma) && IsTrimmed(view.labels[i]) {
        assert kept[i] in Split(text, Comma);
        TrimKeepsCharacters(kept[i], Comma);
      }
    }
  }

  /**
   * A white-space-only piece between commas survives the dropping of empty pieces and
   * is then trimmed to an empty label: `"a, ,b"` is offered as `a`, an empty label, `b`.
   */
  lemma BlankPieceBecomesEmptyLabel(first: string, blank: string, last: string)
    requires IsPlainLabel(first) && IsPlainLabel(last)
    requires blank != [] && forall i :: 0 <= i < |blank| ==> IsWhiteSpace(blank[i])
    requires !StartsWith(first + "," + blank + "," + last, SeatsPrefix)
    ensures LoadSeats(first + "," + blank + "," + last) == SeatChoices([first, "", last])
  {
    SplitThree(first, blank, last);
    TrimAllBlank(blank);
    TrimThreePieces(first, blank, last);
    LoadSeatsOfPieces(first + "," + blank + "," + last, [first, blank, last], [first, "", last]);
  }

  /** Three comma-free pieces joined by commas split back into those pieces. */
  lemma SplitThree(x: string, y: string, z: string)
    requires Avoids(x, Comma) && Avoids(y, Comma) && Avoids(z, Comma)
    ensures Split(x + "," + y + "," + z, Comma) == [x, y, z]
  {
    var pieces := [x, y, z];
    assert pieces[1..] == [y, z] && pieces[1..][1..] == [z];
    assert Join([y, z], ",") == y + "," + z;
    assert Join(pieces, ",") == x + "," + (y + "," + z);
    assert x + "," + (y + "," + z) == x + "," + y + "," + z;
    SplitJoin(pieces, ',', Comma);
  }

  /** `LoadSeats` of a reply without the `Seats:` prefix whose split pieces are known. */
  lemma LoadSeatsOfPieces(reply: string, pieces: seq<string>, labels: seq<string>)
    requires reply != "" && !StartsWith(reply, SeatsPrefix)
    requires Split(reply, Comma) == pieces && TrimEach(DropEmpty(pieces)) == labels && labels != []
    ensures LoadSeats(reply) == SeatChoices(labels)
  {
  }

  lemma TrimAllBlank(blank: string)
    requires forall i :: 0 <= i < |blank| ==> IsWhiteSpace(blank[i])
    ensures Trim(blank) == ""
  {
  }

  lemma TrimThreePieces(x: string, y: string, z: string)
    requires x != [] && y != [] && z != []
    ensures TrimEach(DropEmpty([x, y, z])) == [Trim(x), Trim(y), Trim(z)]
  {
    KeepThreePieces(x, y, z);
    TrimEachOfThree(x, y, z);
  }

  lemma KeepThreePieces(x: string, y: string, z: string)
    requires x != [] && y != [] && z != []
    ensures DropEmpty([x, y, z]) == [x, y, z]
  {
    assert [x, y, z][1..] == [y, z] && [y, z][1..] == [z];
  }

  lemma TrimEachOfThree(x: string, y: string, z: string)
    ensures TrimEach([x, y, z]) == [Trim(x), Trim(y), Trim(z)]
  {
    var r := TrimEach([x, y, z]);
    assert r[0] == Trim(x) && r[1] == Trim(y) && r[2] == Trim(z);
  }

  /**
   * A reply without the `Seats:` prefix, such as an error message, is not recognised:
   * without commas it becomes a single label, the whole reply.
   */
  lemma OtherReplyIsOneLabel(reply: string)
    requires reply != "" && !StartsWith(reply, SeatsPrefix)
    requires Avoids(reply, Comma) && IsTrimmed(reply)
    ensures LoadSeats(reply) == SeatChoices([reply])
  {
    SplitWhole(reply, Comma);
  }

  /** The server's "no available seats" reply is offered to the user as a seat. */
  lemma NoSeatsReplyIsOfferedAsASeat()
    ensures LoadSeats(Render(NoAvailableSeats)) == SeatChoices(["ERROR: No available seats"])
  {
    var reply := Render(NoAvailableSeats);
    assert reply[0] == 'E';
    assert !StartsWith(reply, SeatsPrefix);
    OtherReplyIsOneLabel(reply);
  }

  // ---------------------------------------------------------------------------------
  // Booking
  // ---------------------------------------------------------------------------------

  /** The line `BookSeatOnServer` writes. */
  function BookingRequest(flightId: int, seat: string): string {
    "BOOK_SEAT " + FormatInt(flightId) + " " + seat
  }

  /** The line `LoadSeats` writes. */
  function SeatsRequest(flightId: int): string {
    "GET_SEATS " + FormatInt(flightId)
  }

  /** `BookSeatOnServer`'s verdict on the reply line: non-empty and starting with `SUCCESS`. */
  predicate BookingSucceeded(response: string) {
    response != "" && StartsWith(response, "SUCCESS")
  }

  // ---------------------------------------------------------------------------------
  // The connection: the server writes UTF-8, the window reads and writes ASCII
  // ---------------------------------------------------------------------------------

  predicate IsAscii(c: char) {
    c as int < 0x80
  }

  predicate IsLineBreak(c: char) {
    c == '\r' || c == '\n'
  }

  /** Text that crosses the connection unchanged, in one line. */
  predicate IsWireSafe(s: string) {
    forall i :: 0 <= i < |s| ==> IsAscii(s[i]) && !IsLineBreak(s[i])
  }

  /** The number of bytes `Encoding.UTF8` writes for a character. */
  function Utf8Length(c: char): nat {
    if c as int < 0x80 then 1 else if c as int < 0x800 then 2 else if c as int < 0x1_0000 then 3 else 4
  }

  /**
   * The line the window's `ReadLine` returns for a response: the server writes the
   * response in UTF-8 followed by `\n`, the window's ASCII decoder turns every byte
   * above 0x7F into `?`, and the line ends at the first `\r` or `\n`.
   */
  function ReceivedLine(response: string): (line: string)
    ensures IsWireSafe(line)
  {
    if response == [] || IsLineBreak(response[0]) then []
    else
      var rest := ReceivedLine(response[1..]);
      if IsAscii(response[0]) then [response[0]] + rest
      else seq(Utf8Length(response[0]), _ => '?') + rest
  }

  /** The request as the server decodes it: the window's ASCII encoder writes `?` for every other character. */
  function SentText(request: string): (r: string)
    ensures |r| == |request|
    ensures forall i :: 0 <= i < |request| ==> r[i] == if IsAscii(request[i]) then request[i] else '?'
  {
    if request == [] then []
    else [if IsAscii(request[0]) then request[0] else '?'] + SentText(request[1..])
  }

  /** A wire-safe response is read back as it was written. */
  lemma {:induction false} ReceivedWireSafe(response: string)
    requires IsWireSafe(response)
    ensures ReceivedLine(response) == response
  {
    if response != [] {
      ReceivedWireSafe(response[1..]);
      assert response == [response[0]] + response[1..];
    }
  }

  /**
   * The window sees a wire-safe prefix without `?` exactly when the server wrote it:
   * a character the decoder replaces becomes `?`, and a line break ends the line.
   */
  lemma {:induction false} ReceivedKeepsPrefix(response: string, prefix: string)
    requires IsWireSafe(prefix) && forall i :: 0 <= i < |prefix| ==> prefix[i] != '?'
    ensures StartsWith(ReceivedLine(response), prefix) <==> StartsWith(response, prefix)
  {
    if prefix != [] && response != [] && !IsLineBreak(response[0]) {
      var line := ReceivedLine(response);
      if IsAscii(response[0]) {
        assert line[0] == response[0] && line[1..] == ReceivedLine(response[1..]);
        ReceivedKeepsPrefix(response[1..], prefix[1..]);
        StartsWithFirst(line, prefix);
        StartsWithFirst(response, prefix);
      } else {
        assert line[0] == '?';
        FirstCharacterRulesOut(line, prefix);
        FirstCharacterRulesOut(response, prefix);
      }
    }
  }

  /** The window's success test gives the same verdict on the line it reads as on the response written. */
  lemma ReceivedVerdict(response: string)
    ensures BookingSucceeded(ReceivedLine(response)) <==> BookingSucceeded(response)
  {
    ReceivedKeepsPrefix(response, "SUCCESS");
  }

  lemma WireSafeConcat(a: string, b: string)
    requires IsWireSafe(a) && IsWireSafe(b)
    ensures IsWireSafe(a + b)
  {
    forall i | 0 <= i < |a + b| ensures IsAscii((a + b)[i]) && !IsLineBreak((a + b)[i]) {
      if i >= |a| {
        assert (a + b)[i] == b[i - |a|];
      }
    }
  }

  /** Joining wire-safe labels with a wire-safe separator gives wire-safe text. */
  lemma {:induction false} JoinWireSafe(parts: seq<string>, separator: string)
    requires IsWireSafe(separator) && forall i :: 0 <= i < |parts| ==> IsWireSafe(parts[i])
    ensures IsWireSafe(Join(parts, separator))
  {
    if |parts| > 1 {
      JoinWireSafe(parts[1..], separator);
      WireSafeConcat(parts[0], separator);
      WireSafeConcat(parts[0] + separator, Join(parts[1..], separator));
    }
  }

  /** A `Seats: ` reply of wire-safe labels reaches the window as the server wrote it. */
  lemma SeatListCrossesWire(labels: seq<string>)
    requires forall i :: 0 <= i < |labels| ==> IsWireSafe(labels[i])
    ensures ReceivedLine(Render(SeatList(labels))) == Render(SeatList(labels))
  {
    RenderSeatList(labels);
    JoinWireSafe(labels, ", ");
    WireSafeConcat("Seats: ", Join(labels, ", "));
    ReceivedWireSafe("Seats: " + Join(labels, ", "));
  }

  /** ASCII text reaches the server as it was written. */
  lemma SentAscii(request: string)
    requires forall i :: 0 <= i < |request| ==> IsAscii(request[i])
    ensures SentText(request) == request
  {
  }

  // ---------------------------------------------------------------------------------
  // The e-mail address check
  // ---------------------------------------------------------------------------------

  predicate IsAsciiLetter(c: char) {
    'A' <= c <= 'Z' || 'a' <= c <= 'z'
  }

  /** `[a-zA-Z0-9._%+-]` */
  predicate IsLocalChar(c: char) {
    IsAsciiLetter(c) || IsDigit(c) || c in {'.', '_', '%', '+', '-'}
  }

  /** `[a-zA-Z0-9.-]` */
  predicate IsDomainChar(c: char) {
    IsAsciiLetter(c) || IsDigit(c) || c == '.' || c == '-'
  }

  predicate AllLocal(s: string) {
    forall i :: 0 <= i < |s| ==> IsLocalChar(s[i])
  }

  predicate AllDomain(s: string) {
    forall i :: 0 <= i < |s| ==> IsDomainChar(s[i])
  }

  predicate AllLetters(s: string) {
    forall i :: 0 <= i < |s| ==> IsAsciiLetter(s[i])
  }

  /**
   * `s` is `local@domain.tld` with the `@` at `at` and the `.` before the top-level
   * domain at `dot`: `[a-zA-Z0-9._%+-]+@[a-zA-Z0-9.-]+\.[a-zA-Z]{2,}` read at these positions.
   */
  predicate SplitsAt(s: string, at: int, dot: int) {
    && 0 < at && at + 1 < dot && dot + 2 < |s|
    && s[at] == '@' && s[dot] == '.'
    && AllLocal(s[..at]) && AllDomain(s[at + 1..dot]) && AllLetters(s[dot + 1..])
  }

  /** The pattern matches the whole of `s`: some choice of positions fits. */
  ghost predicate MatchesWhole(s: string) {
    exists at, dot :: SplitsAt(s, at, dot)
  }

  /** The first index of `c` in `s`. */
  function IndexOf(s: string, c: char): (r: int)
    ensures -1 <= r < |s|
    ensures r >= 0 ==> s[r] == c && forall i :: 0 <= i < r ==> s[i] != c
    ensures r < 0 ==> forall i :: 0 <= i < |s| ==> s[i] != c
  {
    if s == [] then -1
    else if s[0] == c then 0
    else var k := IndexOf(s[1..], c); if k < 0 then -1 else k + 1
  }

  /** The last index of `c` in `s`. */
  function LastIndexOf(s: string, c: char): (r: int)
    ensures -1 <= r < |s|
    ensures r >= 0 ==> s[r] == c && forall i :: r < i < |s| ==> s[i] != c
    ensures r < 0 ==> forall i :: 0 <= i < |s| ==> s[i] != c
  {
    if s == [] then -1
    else if s[|s| - 1] == c then |s| - 1
    else LastIndexOf(s[..|s| - 1], c)
  }

  /** The pattern decided by position: the `@` is the first one and the `.` is the last one. */
  predicate MatchesAddress(s: string) {
    SplitsAt(s, IndexOf(s, '@'), LastIndexOf(s, '.'))
  }

  /** Looking only at the first `@` and the last `.` decides the pattern exactly. */
  lemma MatchesAddressIsMatchesWhole(s: string)
    ensures MatchesAddress(s) <==> MatchesWhole(s)
  {
    if MatchesWhole(s) {
      var at, dot :| SplitsAt(s, at, dot);
      forall i | 0 <= i < at ensures s[i] != '@' {
        assert s[i] == s[..at][i];
      }
      forall i | dot < i < |s| ensures s[i] != '.' {
        assert s[i] == s[dot + 1..][i - dot - 1];
      }
      assert IndexOf(s, '@') == at;
      assert LastIndexOf(s, '.') == dot;
    }
    if MatchesAddress(s) {
      assert SplitsAt(s, IndexOf(s, '@'), LastIndexOf(s, '.'));
    }
  }

  /**
   * `IsValidEmail`: `Regex.IsMatch` with `^…$`; without the multi-line option `$` also
   * matches in front of a final line feed, so one trailing `\n` is accepted.
   */
  predicate IsValidEmail(s: string) {
    MatchesAddress(s) || (s != [] && s[|s| - 1] == '\n' && MatchesAddress(s[..|s| - 1]))
  }

  /** How many times `c` occurs in `s`. */
  function Count(s: string, c: char): nat {
    if s == [] then 0 else (if s[0] == c then 1 else 0) + Count(s[1..], c)
  }

  /**
   * The address rules: exactly one `@` after a non-empty local part of
   * `[A-Za-z0-9._%+-]`; after it only `[A-Za-z0-9.-]`; at least two ASCII letters after
   * the last `.`, and at least one character between the `@` and that `.`.
   */
  lemma {:induction false} AddressRules(s: string)
    requires MatchesAddress(s)
    ensures Count(s, '@') == 1
    ensures var at := IndexOf(s, '@'); var dot := LastIndexOf(s, '.');
      && at >= 1 && AllLocal(s[..at])
      && AllDomain(s[at + 1..])
      && |s| - dot - 1 >= 2 && AllLetters(s[dot + 1..])
      && dot - at - 1 >= 1
  {
    var at := IndexOf(s, '@');
    var dot := LastIndexOf(s, '.');
    forall i | at < i < |s| ensures s[i] != '@' && IsDomainChar(s[i]) {
      if i < dot {
        assert s[i] == s[at + 1..dot][i - at - 1];
      } else if i > dot {
        assert s[i] == s[dot + 1..][i - dot - 1];
      }
    }
    CountOnce(s, at, '@');
  }

  /** `c` occurs once in `s` when position `k` holds it and no other position does. */
  lemma {:induction false} CountOnce(s: string, k: int, c: char)
    requires 0 <= k < |s| && s[k] == c
    requires forall i :: 0 <= i < |s| && i != k ==> s[i] != c
    ensures Count(s, c) == 1
  {
    if k == 0 {
      CountNone(s[1..], c);
    } else {
      CountOnce(s[1..], k - 1, c);
    }
  }

  lemma {:induction false} CountNone(s: string, c: char)
    requires forall i :: 0 <= i < |s| ==> s[i] != c
    ensures Count(s, c) == 0
  {
    if s != [] {
      CountNone(s[1..], c);
    }
  }

  /** What `SendTicketButton_Click` does with the text of the e-mail box. */
  datatype TicketOutcome = AskForEmail | InvalidEmail | TicketSent

  function SendTicket(email: string): TicketOutcome {
    if email == "" then AskForEmail
    else if !IsValidEmail(email) then InvalidEmail
    else TicketSent
  }

  /** Every accepted address is non-empty: the empty check only picks the message. */
  lemma TicketSentExactlyForValidEmail(email: string)
    ensures IsValidEmail(email) ==> email != ""
    ensures SendTicket(email) == TicketSent <==> IsValidEmail(email)
    ensures SendTicket(email) == AskForEmail <==> email == ""
  {
  }
}
