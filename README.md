# Flight booking server: request processing and the seat-selection window

This project models the request-processing core of a small flight booking system, and proves properties of that model in Dafny.

The server (`Program.cs`) receives one text line per request. It trims the line and splits it into tokens. It upper-cases the first token and dispatches on it to one of eight handlers:

- `BOOK_SEAT`
- `GET_USER`
- `GET_SEATS`
- `LOGIN`
- `REGISTER`
- `GET_FLIGHTS`
- `CHANGE_PASSWORD`
- `UPDATE_USER`

Every handler except `GET_FLIGHTS` checks how many tokens it received and parses its integer arguments; `GET_FLIGHTS` ignores its tokens. It then reads or updates the database and answers with an exact response string.

The client's seat-selection window (`FBS2_W/SeatSelectionWindow.xaml.cs`) does three things modelled here:

- sends `GET_SEATS` and turns the `Seats: …` reply into the list of seats it offers;
- sends `BOOK_SEAT` and decides from the reply whether the booking succeeded;
- checks an e-mail address before it "sends" a ticket.

The connection between the two is modelled at the level of text: the server writes its response in UTF-8 followed by `\n`, while the window reads lines and writes requests with an ASCII encoding, so every byte of a non-ASCII character arrives at the window as `?`.

The model is laid out in modules:

- `Text` (`text.dfy`): the .NET string routines the code relies on. These are `Trim`, `Split` (which keeps empty entries), `Join`, `StartsWith`, ASCII upper-casing, `Int32.ToString` and `Int32.TryParse`.
- `Store` (`store.dfy`): the database as plain values.
  - The `planes` and `seats` tables are sequences of rows, kept in row order because the replies list rows in that order.
  - `Users` and `UsersInfo` are maps.
  - `Fault` stands for a store that throws, possibly after a reader has delivered some rows.
- `Protocol` (`protocol.dfy`): a `Reply` datatype and `Render`, which gives every response string exactly. It also has the tokeniser, the routing `switch`, one pure function per handler that returns the new store together with the reply, and `Dispatch`.
- `ProtocolLemmas` (`protocol_lemmas.dfy`): what the handlers guarantee. This covers arity, parsing, the booking cascade, the user operations and consistency of the store.
- `Server` (`server.dfy`): the class `FlightServer`. Its fields are the tables. Its handler methods update those fields in place. Each method is proved to produce exactly the store and the response string of the corresponding pure handler (`HandleChangeInfo` corresponds to `UpdateUser`, `HandleGetUserInfo` to `GetUser`, and so on). The two reader loops (`GetAvailableSeats` and the `planes` reader of `HandleGetFlights`) and the `StringBuilder` loop are real loops with invariants.
- `SeatClient` (`client.dfy`): the window's parsing of the seat list, its booking request and success test, the text the connection delivers in each direction, and `IsValidEmail`.
- `EndToEnd` (`end_to_end.dfy`): the window and the server together. It covers the requests the window writes, the replies the server gives to them, and what the window reads back.

The model follows the code as written, including:

- Tokenising keeps empty entries (`"BOOK_SEAT 1  12A"` has an empty seat token).
- The code keeps no login state: every command is accepted without `LOGIN`.
- A store exception reaches the client as `ERROR: ` followed by the exception's message, with three exceptions. `LOGIN` answers `ERROR: Internal server error`. The readers of `GET_SEATS` and `GET_FLIGHTS` swallow it: they answer with the rows read before the failure, or with `ERROR: No available seats` or `ERROR: No flights available` when there were none.
- A `REGISTER` refused because the name is taken still uses up an identity value, as a failed `INSERT` into an identity table does.
- The booking `UPDATE` marks every row with the (flight, seat number) key as booked.
- The code does nothing to make concurrent bookings of one seat have a single winner (see "Left out").

## Model

| member | source | states |
|---|---|---|
| Text.Trim | Program.cs:66 | the result has no white space at either end, and a text without any is returned unchanged |
| Text.TrimStart | Program.cs:66 | what is left is a suffix of the text that is empty or does not start with white space |
| Text.TrimEnd | Program.cs:66 | what is left is a prefix of the text that is empty or does not end with white space |
| Text.TrimStartDropsWhiteSpace | Program.cs:66 | every character `TrimStart` removes is white space |
| Text.TrimEndDropsWhiteSpace | Program.cs:66 | every character `TrimEnd` removes is white space |
| Text.TrimLineTerminator | Program.cs:66 | trimming a non-empty trimmed line followed by `\r\n` gives the line back |
| Text.TrimKeepsCharacters | FBS2_W/SeatSelectionWindow.xaml.cs:69 | trimming introduces no character that was not in the text |
| Text.TrimLeadingSpace | FBS2_W/SeatSelectionWindow.xaml.cs:65 | a space in front of a trimmed text is all that `Trim` removes |
| Text.StartsWithFirst | FBS2_W/SeatSelectionWindow.xaml.cs:182 | a text starts with a prefix exactly when the first characters agree and the rest starts with the rest of the prefix |
| Text.Split | Program.cs:89 | a split always yields at least one piece, and no piece contains a separator |
| Text.Join | Program.cs:315 | `String.Join`; its inverse is stated by `SplitJoin` and `JoinSplit` |
| Text.StartsWith | FBS2_W/SeatSelectionWindow.xaml.cs:63 | `String.StartsWith`; `StartsWithFirst` and `StartsWithAppend` state what it accepts |
| Text.StartsWithAppend | FBS2_W/SeatSelectionWindow.xaml.cs:63 | a text followed by anything starts with that text |
| Text.SplitWhole | Program.cs:89 | a text without separators is a single token |
| Text.SplitAtSeparator | Program.cs:89 | a separator-free text, a separator, then more text split into that first text followed by the pieces of the rest |
| Text.SplitJoin | Program.cs:89 | splitting undoes joining with a separator character when no piece contains a separator (empty pieces included) |
| Text.JoinSplit | Program.cs:89 | joining the pieces with the one separator that occurs gives the text back |
| Text.FormatNat | Program.cs:401 | the decimal form of a number is a non-empty digit string, one digit long exactly when the number is below 10 |
| Text.FormatInt | Program.cs:401 | `Int32.ToString`; `FormatIntShape` states its shape (a minus sign exactly for negative numbers, then digits) and `ParseFormatRoundTrip` that `Int32.TryParse` reads it back |
| Text.PadZeros | Program.cs:300 | the zero-padded day, month and year are digit strings of at least the requested width |
| Text.PadZerosRoundTrip | Program.cs:300 | `Int32.TryParse` reads a zero-padded number back as that number |
| Text.ScanZeros | Program.cs:300 | leading zeros after the first digit leave the accumulated value at zero |
| Text.TryParseInt32 | Program.cs:353 | a parsed value is a 32-bit integer |
| Text.Scan | Program.cs:353 | a value read from any state is a 32-bit integer |
| Text.Finish | Program.cs:353 | the end of the text gives a value exactly when a digit has been read and the signed value fits in 32 bits |
| Text.ScanFormat | Program.cs:401 | reading the decimal form of `n` after a sign, or in place of one, accumulates exactly `n` |
| Text.FirstDigit | Program.cs:353 | a first digit is read alike with or without a sign before it |
| Text.ParseFormatRoundTrip | Program.cs:353 | `int.TryParse` of the formatted form of every 32-bit integer returns that integer |
| Text.ParseSkipsLeadingWhite | Program.cs:353 | white space in front of a number does not change what is parsed |
| Text.ParseNeedsADigit | Program.cs:353 | a text without any digit is never a number, whatever its signs and white space |
| Text.FormatIntAvoids | Program.cs:89 | a formatted integer contains no character other than digits and `-` |
| Text.AsciiUpper | Program.cs:92 | upper-casing keeps the length and upper-cases each ASCII letter in place |
| Store.FindSeat | Program.cs:371-391 | the row found has the (flight, seat) key and no earlier row has it; no row has the key when none is found |
| Store.FlightExists | Program.cs:359-368 | the `COUNT(*)` on `planes`: some row has the flight id; `BookSeatCascade` states that booking answers `Flight does not exist` exactly when it fails |
| Store.BookKey | Program.cs:394-398 | the `UPDATE` keeps the table's length, marks every row with the key booked and leaves every other row as it was |
| Store.BookRow | Program.cs:394-398 | the `UPDATE` of one row; `BookKeyIsBookRow` states when it is the whole `UPDATE`, `FreeLabelsAfterBooking` what it does to the free list |
| Store.BookKeyIsBookRow | Program.cs:394-398 | when one row has the key, the `UPDATE` changes that row alone |
| Store.BookKeyClearsSeat | Program.cs:394-398 | after the `UPDATE` the seat number is not listed free for its flight, even when several rows share the key |
| Store.FreeLabels | Program.cs:326-338 | the numbers of the free rows of a flight in row order; `FreeLabelsMembership` states what is listed |
| Store.ReadRows | Program.cs:331-345 | a reader that fails delivers a prefix of the rows, of the length read before the failure; a healthy one delivers all rows |
| Store.FreeLabelsMembership | Program.cs:328 | a seat number is listed for a flight exactly when some row of that flight with that number is free |
| Store.FreeLabelsPrefix | Program.cs:335-338 | the free labels of the first k rows are a prefix of those of the whole table |
| Store.FreeLabelsOtherFlight | Program.cs:395-398 | booking a row of another flight does not change a flight's free labels |
| Store.FreeLabelsAfterBooking | Program.cs:395-398 | booking a free row removes exactly one occurrence of its number from its flight's free labels |
| Store.BookedLabelNotFree | Program.cs:395-398 | with unique seat keys, a booked seat is no longer listed as free |
| ProtocolLemmas.TokeniseJoin | Program.cs:89 | tokens without separators survive being joined with spaces and split again |
| Protocol.Tokenise | Program.cs:89 | there is always a token, and no token contains a separator |
| Protocol.Route | Program.cs:95-115 | a routed name is the name of the command it routes to, and every command name routes to its own command |
| Protocol.Handle | Program.cs:95-112 | each case of the `switch` calls its command's handler; `HandleAnswers` states that no handler answers `Invalid request` or `Unknown command`, and `HandlePreservesConsistency` that each keeps the store consistent |
| Protocol.Dispatch | Program.cs:87-121 | the `parts.Length == 0` answer `ERROR: Invalid request` is never given |
| Protocol.Render | Program.cs:87-432 | the exact response string of each reply; `RenderedSuccessIsSuccess` and `ErrorTextStartsWithError` state how the texts are told apart |
| Protocol.FlightListing | Program.cs:293-301 | the `StringBuilder` text of a run of `planes` rows; `FlightListingConcat`, `FlightListingStartsWithF` and `GetFlightsListsFlights` state what it holds |
| Protocol.FlightLine | Program.cs:300 | one `AppendLine` of a `planes` row; `FlightListingStartsWithF` states that a non-empty listing starts with the line of its first row, and `GET_FLIGHTS` lists one per row |
| Protocol.FormatDate | Program.cs:300 | the `dd.MM.yyyy` date column; `FlightDateReadsBack` states that it splits back into day, month and year |
| Protocol.ProfileFields | Program.cs:248-252 | the `USER=` columns of a profile; `FindProfile` states which profile is shown |
| ProtocolLemmas.RequestNeverInvalid | Program.cs:89-90 | there is always a token, so `ERROR: Invalid request` is never the answer |
| ProtocolLemmas.TokeniseKeepsEmptyEntries | Program.cs:89 | `"BOOK_SEAT 1  12A"` splits into `BOOK_SEAT`, `1`, an empty token and `12A`; an empty request is one empty token |
| ProtocolLemmas.RouteExactlyEightNames | Program.cs:95-115 | a command name routes to a handler exactly when it is one of the eight names, each to its own handler |
| ProtocolLemmas.DispatchRoutes | Program.cs:89-112 | a request whose first token is a command name is handled by that command's handler, with all its tokens |
| ProtocolLemmas.HandleAnswers | Program.cs:95-112 | a routed command's handler never answers `ERROR: Invalid request` or `ERROR: Unknown command` |
| ProtocolLemmas.CommandCaseInsensitive | Program.cs:89-92 | a request whose first token upper-cases to a command name, in any letter case, is handled by that command's handler with all its tokens, and is never answered as an unknown command |
| ProtocolLemmas.LoneCommandToken | Program.cs:89-92 | a request that is a command name alone, in any letter case, is the one token and reaches that command's handler |
| ProtocolLemmas.UnknownCommandChangesNothing | Program.cs:113-114 | any other first token answers `ERROR: Unknown command` and leaves the store as it was |
| ProtocolLemmas.EmptyRequestIsUnknown | Program.cs:89-114 | the empty request is answered `ERROR: Unknown command` |
| ProtocolLemmas.MissingParametersExactly | Program.cs:125-406 | each handler answers `ERROR: Missing parameters` exactly when it has fewer than 5, 3, 3, 2, 2, 3 or 3 tokens, and then changes nothing |
| ProtocolLemmas.ExtraTokensIgnored | Program.cs:125-406 | tokens after the ones a handler needs do not change its outcome |
| Protocol.BookSeat | Program.cs:350-401 | a booking reply names the seat and the flight id of the request's tokens |
| Protocol.Book | Program.cs:355-401 | the store changes only through the booking `UPDATE`, and only when the reply is the booking of that seat |
| Protocol.GetSeats | Program.cs:307-316 | `ERROR: Missing parameters` exactly for fewer than two tokens |
| Protocol.FreeSeats | Program.cs:312-316 | the seats listed are a non-empty prefix of the flight's free seat numbers, and a working store says there are none exactly when the flight has no free seat |
| Protocol.GetFlights | Program.cs:258-304 | the flights listed are a non-empty prefix of the `planes` rows, and a working store says there are none exactly when the table is empty |
| Protocol.Login | Program.cs:177-205 | a login answers an id only for a registered name whose account has that id and that password |
| Protocol.Register | Program.cs:207-230 | registering changes only the accounts and the identity counter, which never goes down |
| Protocol.GetUser | Program.cs:233-256 | `ERROR: Missing parameters` exactly for fewer than two tokens |
| Protocol.FindProfile | Program.cs:240-255 | a profile is returned only for a user id that has one, and from a working store always for such an id |
| Protocol.UpdateUser | Program.cs:123-175 | only the profiles change |
| Protocol.StoreProfile | Program.cs:133-172 | only the profiles change, and a new user id is added exactly when the reply says the profile was added |
| Protocol.ChangePassword | Program.cs:404-433 | only the accounts change, every name keeps its account and every account its id |
| ProtocolLemmas.BadNumberNeverReachesStore | Program.cs:126-353 | an unparsable flight id, user id or age gives its own error before any store access, the user id being checked before the age |
| ProtocolLemmas.BookSeatCascade | Program.cs:359-401 | unknown flight, unknown seat, booked seat and success each happen exactly under their condition; the errors change nothing; success flips only that seat's row |
| ProtocolLemmas.BookedRow | Program.cs:383-398 | a successful booking flips the one free row with the requested key |
| ProtocolLemmas.BookSeatChangesOneRow | Program.cs:395-401 | after a booking every other row, every flight, account and profile is unchanged |
| ProtocolLemmas.BookedSeatLeavesFreeList | Program.cs:328 | after a booking the seat is no longer listed free, one occurrence leaves the flight's list, and other flights' lists are unchanged |
| ProtocolLemmas.RebookingRefused | Program.cs:383-392 | after a booking the store is still consistent, and booking the same seat again answers `ERROR: Seat is already booked` with no change |
| ProtocolLemmas.BookSeatSucceedsOnlyByBooking | Program.cs:350-401 | the booking handler's only success reply is the booking of the requested seat |
| ProtocolLemmas.GetSeatsListsFreeSeats | Program.cs:312-316 | `GET_SEATS` lists exactly the free seats of the flight, or answers that there are none exactly when it has none |
| ProtocolLemmas.LoginExactlyOnMatch | Program.cs:190-196 | `LOGIN u p` answers the id of the account exactly when `u` is registered with password `p`, and otherwise `ERROR: Invalid credentials` |
| ProtocolLemmas.RegisterThenLogin | Program.cs:216-229 | a new name gets an account under the next identity value and can log in; a taken name is refused, the failed insert using up an identity value and changing nothing else |
| ProtocolLemmas.ChangePasswordThenLogin | Program.cs:414-432 | an unknown name is refused with no change; otherwise only the password changes and logging in with it succeeds |
| ProtocolLemmas.UpdateUserThenGetUser | Program.cs:142-174 | `UPDATE_USER` answers updated or added according to whether a profile existed, and `GET_USER` then returns the stored names and age |
| ProtocolLemmas.FullProfileText | Program.cs:252 | a profile with every column set is answered as `USER=` followed by the names and the age, comma-separated |
| ProtocolLemmas.BookSeatPreservesConsistency | Program.cs:395-398 | booking keeps seat keys unique and user ids fresh |
| ProtocolLemmas.RegisterPreservesConsistency | Program.cs:216-224 | registering keeps user ids below the identity counter and distinct |
| ProtocolLemmas.ChangePasswordPreservesConsistency | Program.cs:426-432 | changing a password keeps every account id |
| ProtocolLemmas.HandlePreservesConsistency | Program.cs:95-112 | no handler breaks the schema constraints |
| ProtocolLemmas.DispatchPreservesConsistency | Program.cs:87-121 | no request breaks the schema constraints |
| ProtocolLemmas.RenderedSuccessIsSuccess | Program.cs:87-432 | a response starts with `SUCCESS` exactly when the reply is one of the six successes |
| ProtocolLemmas.ErrorTextStartsWithError | Program.cs:87-432 | every fixed error reply's text starts with `ERROR: ` |
| ProtocolLemmas.FlightListingStartsWithF | Program.cs:298-301 | a non-empty flight listing starts with the whole line of its first row, and so with the `F` of `Flight ID:`; the empty listing is empty |
| ProtocolLemmas.FlightListingConcat | Program.cs:296-301 | the listing of two runs of rows is the listing of the first followed by that of the second |
| ProtocolLemmas.GetFlightsListsFlights | Program.cs:258-304 | `GET_FLIGHTS` answers a prefix of the listing of the whole `planes` table, and all of it from a working store |
| ProtocolLemmas.FlightDateReadsBack | Program.cs:300 | the date column splits at its dots into day, month and year, each reading back as its number |
| SeatClient.LoadSeats | FBS2_W/SeatSelectionWindow.xaml.cs:57-72 | an empty reply is reported as empty and nothing else is; a list of choices is never empty |
| SeatClient.DropEmpty | FBS2_W/SeatSelectionWindow.xaml.cs:68 | the kept pieces are the non-empty pieces of the split, each as often as it occurs, and nothing is dropped when no piece is empty; `DropEmptyConcat` states that their order is kept |
| SeatClient.DropEmptyConcat | FBS2_W/SeatSelectionWindow.xaml.cs:68 | dropping empty pieces works on each part of the list separately, so the kept pieces stay in their order |
| SeatClient.TrimEach | FBS2_W/SeatSelectionWindow.xaml.cs:69 | `.Select(seat => seat.Trim())`: one trimmed label per kept piece, in the same position |
| SeatClient.SpacedJoin | Program.cs:315 | joining with `", "` equals joining with `,` after a space is put before every label |
| SeatClient.SeatListText | Program.cs:314-315 | a `Seats: ` reply starts with the prefix the window looks for, and what follows it, trimmed, is the labels joined with `", "` |
| SeatClient.SeatListRoundTrip | FBS2_W/SeatSelectionWindow.xaml.cs:63-70 | the window reads back exactly the labels of the server's `Seats: ` reply when they are non-empty, comma-free and trimmed |
| SeatClient.ParsedLabelsArePlain | FBS2_W/SeatSelectionWindow.xaml.cs:68-70 | every offered label is comma-free and trimmed |
| SeatClient.BlankPieceBecomesEmptyLabel | FBS2_W/SeatSelectionWindow.xaml.cs:68-70 | a white-space-only piece between two commas is kept and offered as an empty label (`"a, ,b"` gives `a`, an empty label, `b`) when the reply does not start with `Seats:` |
| SeatClient.OtherReplyIsOneLabel | FBS2_W/SeatSelectionWindow.xaml.cs:63-70 | a non-empty comma-free trimmed reply without the `Seats:` prefix becomes one label, the whole reply |
| SeatClient.NoSeatsReplyIsOfferedAsASeat | FBS2_W/SeatSelectionWindow.xaml.cs:63-72 | the server's `ERROR: No available seats` reply becomes a one-seat list, so the zero-length check is not reached |
| SeatClient.IndexOf | FBS2_W/SeatSelectionWindow.xaml.cs:223 | the first position holding a character, or -1 when there is none |
| SeatClient.LastIndexOf | FBS2_W/SeatSelectionWindow.xaml.cs:223 | the last position holding a character, or -1 when there is none |
| SeatClient.MatchesAddressIsMatchesWhole | FBS2_W/SeatSelectionWindow.xaml.cs:223 | the pattern matches for some choice of `@` and `.` exactly when it matches at the first `@` and the last `.` |
| SeatClient.AddressRules | FBS2_W/SeatSelectionWindow.xaml.cs:221-224 | an accepted address has exactly one `@`, a non-empty local part, only domain characters after `@`, two or more letters after the last `.`, and a character between `@` and that `.` |
| SeatClient.TicketSentExactlyForValidEmail | FBS2_W/SeatSelectionWindow.xaml.cs:205-218 | accepted addresses are non-empty, so a ticket is sent exactly for a valid address, and an empty one only asks again |
| SeatClient.ReceivedLine | FBS2_W/SeatSelectionWindow.xaml.cs:34 | the line the window reads holds only ASCII characters and no line break |
| SeatClient.SentText | FBS2_W/SeatSelectionWindow.xaml.cs:33 | the request keeps its length, and every non-ASCII character reaches the server as `?` |
| SeatClient.ReceivedWireSafe | FBS2_W/SeatSelectionWindow.xaml.cs:102 | an ASCII response without line breaks is read as it was written |
| SeatClient.ReceivedKeepsPrefix | FBS2_W/SeatSelectionWindow.xaml.cs:102 | the window sees an ASCII prefix without `?` exactly when the server wrote it |
| SeatClient.JoinWireSafe | Program.cs:315 | joining ASCII single-line labels with `", "` gives ASCII single-line text |
| SeatClient.WireSafeConcat | Program.cs:72 | two ASCII single-line texts give an ASCII single-line text |
| SeatClient.SentAscii | FBS2_W/SeatSelectionWindow.xaml.cs:33 | an ASCII request reaches the server unchanged |
| SeatClient.SeatListCrossesWire | Program.cs:72 | a `Seats: ` reply of ASCII single-line labels reaches the window unchanged |
| SeatClient.IsValidEmail | FBS2_W/SeatSelectionWindow.xaml.cs:221-224 | the address pattern; `AddressRules` and `MatchesAddressIsMatchesWhole` state what it accepts |
| SeatClient.MatchesAddress | FBS2_W/SeatSelectionWindow.xaml.cs:223 | the pattern tried at the first `@` and the last `.`; `MatchesAddressIsMatchesWhole` shows this is the whole regular-expression match |
| SeatClient.SendTicket | FBS2_W/SeatSelectionWindow.xaml.cs:205-218 | the empty check, then the address check; `TicketSentExactlyForValidEmail` states its outcomes |
| SeatClient.BookingRequest | FBS2_W/SeatSelectionWindow.xaml.cs:171 | the booking line; `BookingRequestTokensAnySeat`, `BookingRequestBooksFirstWord`, `BookingRequestTokens` and `BookingRequestBooks` state how the server reads it |
| SeatClient.SeatsRequest | FBS2_W/SeatSelectionWindow.xaml.cs:55 | the seat query; `DispatchSeatsRequest` states how the server reads it |
| SeatClient.BookingSucceeded | FBS2_W/SeatSelectionWindow.xaml.cs:182 | the success test; `BookingVerdictMatchesServer` states when it holds |
| Server.FlightServer.ProcessRequest | Program.cs:87-121 | the new tables and the response are those `Dispatch` gives, and the store stays consistent |
| Server.FlightServer.RunHandler | Program.cs:95-112 | each case of the `switch` leaves the tables and gives the response of that command's pure handler, and the store stays consistent |
| Server.FlightServer.HandleChangeInfo | Program.cs:123-175 | the new tables and the response are those of `UpdateUser` |
| Server.FlightServer.HandleLogin | Program.cs:177-205 | the response is that of `Login`, without change to the tables |
| Server.FlightServer.HandleRegister | Program.cs:207-230 | the new tables and the response are those of `Register`, and the store stays consistent |
| Server.FlightServer.HandleGetUserInfo | Program.cs:233-256 | the response is that of `GetUser` |
| Server.FlightServer.HandleGetFlights | Program.cs:258-305 | the response is the listing of the flights read, one line per flight, or `ERROR: No flights available` |
| Server.FlightServer.AppendFlightLines | Program.cs:296-301 | the `StringBuilder` loop produces exactly the listing, one line per flight in row order |
| Server.FlightServer.ReadFlights | Program.cs:266-288 | the reader loop delivers the `planes` rows in order until it is exhausted or fails |
| Server.FlightServer.HandleGetSeats | Program.cs:307-317 | the response is that of `GetSeats` |
| Server.FlightServer.GetAvailableSeats | Program.cs:319-348 | the reader loop delivers the free seat numbers of the flight in row order, up to a failure, and each is the number of a free row of that flight |
| Server.FlightServer.HandleBookSeat | Program.cs:350-402 | the new tables and the response are those of `BookSeat`, and the store stays consistent |
| Server.FlightServer.HandleChangePassword | Program.cs:404-433 | the new tables and the response are those of `ChangePassword`, and the store stays consistent |
| EndToEnd.BookingRequestTokensAnySeat | FBS2_W/SeatSelectionWindow.xaml.cs:171 | for any seat label, the booking line splits into `BOOK_SEAT`, the flight id, and then the words of the label |
| EndToEnd.CommandWordThen | Program.cs:89-92 | a line that starts with `BOOK_SEAT` and a space has `BOOK_SEAT` as its first token, followed by the tokens of the rest |
| EndToEnd.BookingRequestBooksFirstWord | Program.cs:350-354 | for a 32-bit flight id and any label, the booking line books the label's first word on that flight, since the server takes the seat number from the third token |
| EndToEnd.TwoWordLabel | Program.cs:89 | the label `A B` splits into the tokens `A` and `B` |
| EndToEnd.BookFirstOfTwo | Program.cs:356-398 | on a flight with free seats `A` and `A B`, booking `A` answers success and marks only the row of `A` |
| EndToEnd.SpacedLabelBooksFirstWord | FBS2_W/SeatSelectionWindow.xaml.cs:171-182 | choosing the free seat `A B` when `A` is also free books `A`, the window reports success, and `A B` stays free |
| EndToEnd.BookingRequestTokens | FBS2_W/SeatSelectionWindow.xaml.cs:171 | for a label without spaces, the booking line splits into `BOOK_SEAT`, the flight id and the seat |
| EndToEnd.SeatsRequestTokens | FBS2_W/SeatSelectionWindow.xaml.cs:55 | the seat query splits into `GET_SEATS` and the flight id |
| EndToEnd.DispatchBookingRequest | FBS2_W/SeatSelectionWindow.xaml.cs:171 | for a label without spaces, the booking line is handled by the booking handler with exactly that label as the seat |
| EndToEnd.BookingRequestBooks | FBS2_W/SeatSelectionWindow.xaml.cs:171 | for a 32-bit flight id and a label without spaces, the booking line books that seat of that flight |
| EndToEnd.DispatchSeatsRequest | FBS2_W/SeatSelectionWindow.xaml.cs:55 | the seat query is handled by the seat-listing handler |
| EndToEnd.BookThenListThenRebook | Program.cs:383-401 | after a successful `BOOK_SEAT f s`, `GET_SEATS f` does not list `s` and a second `BOOK_SEAT f s` answers `ERROR: Seat is already booked` without change |
| EndToEnd.BookThenList | Program.cs:383-398 | after a successful `BOOK_SEAT f s`, `GET_SEATS f` does not list `s` |
| EndToEnd.BookThenRebook | Program.cs:383-392 | after a successful `BOOK_SEAT f s`, the same request answers `ERROR: Seat is already booked` and changes nothing |
| EndToEnd.BookingRequestSurvivesTransport | FBS2_W/SeatSelectionWindow.xaml.cs:171-172 | an ASCII booking request crosses the window's ASCII encoder unchanged, and the server's `Trim` removes the line terminator that `WriteLine` adds |
| EndToEnd.BookingRequestAscii | FBS2_W/SeatSelectionWindow.xaml.cs:171 | the booking line of an ASCII seat number, with its terminator, is ASCII |
| EndToEnd.BookingVerdictMatchesServer | FBS2_W/SeatSelectionWindow.xaml.cs:182 | for any label, the window reports success exactly when the server booked a seat, also after the reply crossed the connection; the seat booked is the label's first word |
| EndToEnd.SeatsReplyReadBack | FBS2_W/SeatSelectionWindow.xaml.cs:55-70 | for plain, ASCII, single-line seat numbers, the window offers exactly the free seats of the flight, in row order, both from the reply text and from the line it reads off the connection |
| EndToEnd.SeatsRequestListsFreeSeats | Program.cs:307-316 | a healthy `GET_SEATS f` for a flight with free seats answers with their list |

## Left out

- TCP and threads are not modelled. This covers `Start`, `Stop`, the accept loop, the thread per client and the `HandleClient` read/write loop. The model's input is the trimmed request line. In the code, one `Read` of up to 4096 bytes is taken as one request; that chunking is not modelled.
- Concurrency is not modelled. The checks and the `UPDATE` of a booking are separate statements that can interleave across sessions. The model runs each request as one atomic step and claims nothing about a single winner.
- SQL mechanics are not modelled: connections and their leaks, parameter binding, collation, `Convert` and `DBNull` details, and exception numbers. Any store exception is the one abstract `Fault`.
- Collation is not modelled. Under SQL Server's default, case-insensitive collation, the `WHERE` comparisons of user names (Program.cs:191, 415, 427), passwords (Program.cs:191) and seat numbers (Program.cs:372, 384, 396) ignore letter case and trailing spaces. The model compares them exactly, so `LoginExactlyOnMatch`, `BookSeatCascade` and the other lookups match exact text only.
- The `Could not book seat`, `Could not update user info` and `Could not update password` replies are not modelled. They need a row that was found to vanish before the `UPDATE`, which cannot happen when each request runs as one step.
- In `HandleChangeInfo`, a fault is assumed to strike before the first statement, as in every other handler. A failure between the existence check and the write is not modelled.
- `Flight.Date` is three numbers (day, month, year) formatted as `dd.MM.yyyy`. `DateTime` parsing and culture are not modelled. The line terminator is fixed to `\r\n`.
- `Text.AsciiUpper`: upper-cases ASCII letters only. Culture-sensitive `ToUpper` of other letters is not modelled. It matters for routing: `ToUpper` maps `ı` (U+0131) to `I` and `ſ` (U+017F) to `S`, so the server routes `logın` or `book_ſeat` to a handler where the model answers `ERROR: Unknown command`. Under a Turkish or Azeri culture, `ToUpper` maps the ASCII `i` to `İ` (U+0130), so the server answers `ERROR: Unknown command` to `login`, `register`, `get_flights` and `get_user` typed in lower case, where the model routes them.
- `Text.TryParseInt32`: does not accept the trailing NUL characters that .NET's parser tolerates. It uses `-` as the negative sign.
- Logging through `Console.WriteLine` is not modelled.
- `Store.Consistent`: the model assumes two schema constraints that the code does not show. A (flight, seat number) pair names at most one row of `seats`, and user ids are distinct and below the identity counter. The server class keeps them as its invariant, and the lemmas about booking and accounts assume them. With duplicate seat keys, `Book` still marks every row with the key (as the `UPDATE` does), but which row's `isFree` the `SELECT` reads is not modelled: the model reads the first.
- `EndToEnd.BookingVerdictMatchesServer`: the seat the server books is the first word of the chosen label, not the label itself. The window sends the label as chosen, and the server splits the line on spaces and reads the seat number from the third token. A free seat whose number contains a space is offered by the window, but choosing it books the seat named by its first word if that seat exists and is free. The window then reports success while the chosen seat stays free (`SpacedLabelBooksFirstWord`). Otherwise the server answers with an error. The lemmas that name the booked seat as the chosen label (`BookingRequestBooks` and the lemmas that use it) therefore cover labels without spaces only.
- `EndToEnd.SeatsReplyReadBack`: covers seat numbers of ASCII characters without line breaks only. The window reads the UTF-8 reply with an ASCII decoder, so each byte of a non-ASCII seat number reaches it as `?` (`SeatClient.ReceivedLine` states this), and the offered label then differs from the stored number.
- Identity values skipped for other reasons (the identity cache after a restart, rolled-back transactions) are not modelled.
- After a reply that contains a line break, the rest of it stays in the window's reader and is taken as the reply to the next request. The model looks at one request and its reply at a time, and `SeatClient.ReceivedLine` keeps only the first line.
- The client's user interface is not modelled: `MessageBox`, `Dispatcher.Invoke`, visibility changes, the asynchronous stream reads and writes, `CloseConnection` and the finalizer. A missing reply line (null) is treated as the empty reply.
- The .NET regular expression engine is not modelled. The one pattern is written as character-class predicates. The `$` anchor accepting a final `\n` is included.
