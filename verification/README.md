# Workshop services: a verified model

The repository is a two-process web application. The server answers requests with a
compact text of nested keys and values, and keeps service requests, their parts and the
login sessions. The translator reads that text back and fills HTMT page templates with it.
This project models the code of both and proves what they are for.

**Templates** (`Markers`, `MarkerSearch`, `TagMatching`, `Conditions`, `Templates`,
`TemplateParser`, `TemplateScan`, `TemplateRoundTrip`, `TemplateShape`, `TemplateJoin`,
`TemplateLossless`, `TemplateEdges`, `SectionBalance`, `Rendering`, `TemplateMeaning`). The
parser is a set of functions of the text, and the source's cursor loops are methods proved
equal to them. A template in normal form has no empty or adjacent HTML pieces, HTML free of the eight markers, names without `<`
and `>`, and codes that fit a long; its text parses back to exactly it. More generally, when
no marker straddles the join, its text in front of any other text, well-formed or not, adds
its pieces in front of whatever that text parses to; in front of a text that parses, it does
so only then. The evaluator appends to a buffer exactly what the template means, and
`TemplateMeaning` says tag by tag, from the page's text, what that is. `TemplateEdges` says
what becomes of tags and sections that lack a part.

**Responses** (`Responses`, `ResponseBuilding`, `ResponsePrinter`, `ResponseLayout`,
`ResponseParser`, `ResponseRoundTrip`, `ResponseShape`, `ResponseEdges`, `Unformatting`,
`UnformattingExact`). Any sequence of additions collects the values of every key in order.
The two-mode printer with its erased last comma, the bracket-matching reader, and the white
space and quote filter. A response
with no empty list and no bracket in its keys and values comes back, with its bracket flags
normalised, exactly when no key has a `:` and no value a `,`.

**Pages** (`Pages`) joins the two: sending a response over the wire is invisible to
rendering.

**Services** (`Tables`, `Services`, `ServicePartition`, `ServiceViews`, `PartsLedger`,
`PartsTotals`). Each route is a function of the tables, every statement of which may fail,
and a method of a class that performs the statements one by one and keeps the class's
invariant whatever fails. Tables are sequences of rows in the order of their row IDs, a new
row getting the largest ID plus one. Foreign keys are not enforced, as SQLite leaves them off
unless asked and the source never asks.

**Decoders and sessions** (`Decimal`, `Queries`, `Forms`, `Sessions`).

Conventions. `Failed(OutOfRange)`, `Undefined` and `None` of the cursor functions stand for
a cursor that is moved or dereferenced past the end of its buffer, or for a failed assertion
of the source. `Failed(BadCode)` stands for the exception of `std::stol`. A `long` has 32
bits, because the enumerators `and` and `or` (Translator/src/Source.cpp:135-136) compile
only with a compiler whose `long` has 32 bits. Bytes are characters.

Where the code differs from what its comments or its pages suggest, the model follows the
code:

- An authorise request without a quote deletes the unauthorised row and only then throws
  (`ServicePartition.AuthorisePartitions` says exactly when, `ServicePartition.ServiceLost`
  is such a history).
- `selectService` looks a shared service ID up among active IDs. `ServiceViews.ViewsAgreeExactly`
  says in which states the two views of all services agree, `ServiceViews.ViewsStayAgreeing` in
  which they also agree after any next close, `ServiceViews.InOrderViewsAgree` over which
  histories, and `ServiceViews.ViewsDisagree` is a history without failures after which they do
  not.
- A close accepts any ID; `ServicePartition.ClosePartitions` says which keep the tables in
  order.
- A comma inside a response value cuts the value, and a colon behind it makes a further entry
  (`ResponseShape.CommaDivides`, `ResponseShape.CommaInjects`).
- Empty names of form elements are kept, although the comment at Shared/include/Query.h:22
  says they are not allowed.
- The tag search steps over one character after an opening tag without looking at it
  (Translator/src/Source.cpp:27-28).

## Model

| member | source | states |
|---|---|---|
| MarkerSearch.FindNearest | Translator/src/Source.cpp:262-273 | the search over several markers keeps the first smallest position |
| MarkerSearch.NextMarkerIsNearest | Translator/src/Source.cpp:322-330 | that position is at or before every occurrence of every marker, ties going to the earlier marker of the list |
| MarkerSearch.NextMarkerOver | Translator/src/Source.cpp:398-405 | text in which no marker begins only moves the nearest marker |
| Markers.PrefixFree | Translator/src/Source.cpp:388-390 | no marker is the beginning of another, whatever text follows |
| Markers.MarkerFreeQuiet | Translator/src/Source.cpp:388-390 | no marker straddles the end of marker-free text when the next text is empty or starts with a marker character |
| TemplateParser.TakeTag | Translator/src/Source.cpp:285-304 | reading a tag yields its name, its kind and where the text goes on, or leaves the text |
| TagMatching.TagSearch | Translator/src/Source.cpp:13-44 | the cursor loop computes the search function, with its wrapped depth, its skipped character and its look-alikes at the end of the text |
| TagMatching.TagScanBounds | Translator/src/Source.cpp:21-43 | a search that stops does so inside the text and past where it started |
| TagMatching.TagScanBalances | Translator/src/Source.cpp:20-43 | from any depth, on any text whose tags are apart, the search stops just past the first tag at which the count of tags balances, or at the end when none does |
| TagMatching.TagSearchBalances | Translator/src/Source.cpp:20-43 | the same from an opening tag |
| TagMatching.TagScanOpen | Translator/src/Source.cpp:23-29 | after an opening tag the search skips one more character, whatever it is, and goes one deeper |
| TemplateEdges.TruncatedTag | Translator/src/Source.cpp:23-40 | at the end of the text the beginning of a tag counts as the tag: an opening one leaves the text at any depth, a closing one at depth 0 |
| TemplateScan.ScanBody | Translator/src/Source.cpp:20-43 | inside a section of one kind, a normal body with any sections nested in it never changes the depth |
| TemplateScan.ScanValue | Translator/src/Source.cpp:20-43 | no single normal piece changes the depth: HTML, tags, and sections of the same or another kind |
| TemplateRoundTrip.SectionMatched | Translator/src/Source.cpp:421 | on the text of a normal section followed by anything, the search stops just past the section's own closing tag |
| SectionBalance.SectionBalances | Translator/src/Source.cpp:20-43 | whatever follows the section, or nothing, that closing tag is at the first position at which opens and closes of the kind balance |
| TemplateParser.SubHtmlStep | Translator/src/Source.cpp:260-305 | one turn of the loop yields the HTML before the next tag, the tag, and where the text goes on |
| TemplateParser.ParseSubHtml | Translator/src/Source.cpp:255-306 | the loop pushes exactly the pieces of the text between sections |
| TemplateParser.LocateSection | Translator/src/Source.cpp:419-423 | the cursors at a section are those of the specification, or leave the text when it says so |
| TemplateParser.SectionStep | Translator/src/Source.cpp:414-453 | one turn of the loop yields what stands before a section, the section with its parsed body, and where the text goes on |
| TemplateParser.ParseTemplate | Translator/src/Source.cpp:383-458 | the recursive loop computes the parse of the text, failures included |
| TemplateRoundTrip.MatchOfContents | Translator/src/Source.cpp:430-451 | the text in an opening tag gives back what it was printed from: name, code or condition |
| TemplateRoundTrip.ParseOver | Translator/src/Source.cpp:394-454 | text that holds no section tag and adds a piece in front of HTML adds it in front of whole templates |
| TemplateRoundTrip.ParseOverHtml | Translator/src/Source.cpp:278-279 | HTML in front of any text, none of whose markers it begins, becomes a piece or joins the first one |
| TemplateRoundTrip.ParseOverTag | Translator/src/Source.cpp:285-304 | a value or query tag in front of any text adds its piece in front |
| TemplateRoundTrip.ParseOverTagged | Translator/src/Source.cpp:285-304 | the same with any character but a marker's first between the marker and the name |
| TemplateRoundTrip.ParseOverSection | Translator/src/Source.cpp:419-453 | a section in front of any text adds its piece in front |
| TemplateRoundTrip.ParseOverWrapped | Translator/src/Source.cpp:419-453 | a section in front of any text, whatever its contents and its body: it fails as its body does, then as its contents do, and else adds its piece in front |
| TemplateRoundTrip.ParsePrefixed | Translator/src/Source.cpp:383-458 | a normal template's text in front of any text at all, no marker straddling the join, adds the template's pieces in front of whatever the rest parses to, its failures included |
| TemplateRoundTrip.ParseBack | Translator/src/Source.cpp:383-458 | parsing the text of every normal template gives back exactly the template |
| TemplateRoundTrip.PrintInjective | Translator/src/Source.cpp:383-458 | different normal templates have different texts |
| TemplateJoin.ParseBegins | Translator/src/Source.cpp:383-458 | from any text, the first piece of a successful parse is HTML that ends at a marker character or at the end of the text, or a tag at the front |
| TemplateJoin.ParsePrefixedExactly | Translator/src/Source.cpp:383-458 | for every normal template and every text that parses, the joint text parses to the pieces of the one and then of the other if and only if no marker straddles the join |
| TemplateLossless.Lossless | Translator/src/Source.cpp:383-458 | a text whose value tags have their ':' and '>', whose sections end with their closing tags, and whose codes and conditions are in printed form, parses and is printed back unchanged |
| TemplateEdges.BareMarkerFails | Translator/src/Source.cpp:285-288 | a value or query marker with at most one character behind it at the end of the text leaves the text |
| TemplateEdges.OpenTagTakesAll | Translator/src/Source.cpp:286-304 | a longer tag without its closing bracket takes the rest of the text for its name |
| TemplateEdges.UnnamedSectionFails | Translator/src/Source.cpp:420-423 | an opening tag without its closing bracket leaves the text |
| TemplateEdges.CutSectionFails | Translator/src/Source.cpp:421 | so does a section whose closing tag is cut off by the end of the text |
| TemplateEdges.UnclosedSection | Translator/src/Source.cpp:419-444 | a section without a closing tag runs to the end of the text less as many characters as a closing tag has, or leaves the text when there are fewer |
| TemplateEdges.BadCodeFails | Translator/src/Source.cpp:446 | a code section whose code is no long throws |
| TemplateEdges.FaultyBodyFails | Translator/src/Source.cpp:423 | a section whose body fails fails in the same way |
| TemplateShape.ParseShaped | Translator/src/Source.cpp:255-458 | from any text, a successful parse has no empty or adjacent HTML, HTML without markers, names without a closing bracket, codes that are longs, conditions with one conjunction fewer than tests, at every depth |
| Conditions.CheckChain | Translator/src/Source.cpp:185-195 | the loop computes the left fold, whose meaning the rows EqualHolds to JoinedHolds determine from the text |
| Conditions.CheckWithoutPrecedence | Translator/src/Source.cpp:144-155 | a chain holds exactly when some test that starts it or follows an or holds together with all later tests attached by an and |
| Conditions.EqualHolds | Translator/src/Source.cpp:102-129 | the text K=v holds exactly for the data that have the one string v under K |
| Conditions.NotEqualHolds | Translator/src/Source.cpp:102-129 | the text K!v holds exactly for the others |
| Conditions.BareHolds | Translator/src/Source.cpp:157-182 | a text without an operator always holds |
| Conditions.JoinedHolds | Translator/src/Source.cpp:185-234 | any condition, & and a test hold when both do, with a bar when either does |
| Conditions.FindDivisor | Translator/src/Source.cpp:205-215 | the search for the joining character keeps the nearer of the two |
| Conditions.ParseChain | Translator/src/Source.cpp:197-234 | the cursor loop computes the parse of the condition |
| Conditions.ParseCountsJoins | Translator/src/Source.cpp:221-231 | parsing makes one conjunction of every joining character, so there is one fewer than tests |
| Conditions.TestRoundTrip | Translator/src/Source.cpp:157-182 | a printed test parses back exactly when its variable has no operator looked for before its own |
| Conditions.ChainRoundTrip | Translator/src/Source.cpp:197-234 | a printed chain parses back exactly when every test does and has no joining character |
| Conditions.ConditionText | Translator/src/Source.cpp:157-234 | parsing and printing a condition gives its text back exactly when no piece between joining characters lacks an operator; such a piece is dropped |
| Conditions.Complementary | Translator/src/Source.cpp:102-129 | for operands without joining characters, of the conditions K=v and K!v exactly one holds for all data if and only if neither text has an operator in front of its own or a further equals sign |
| Decimal.StolToText | Translator/src/Source.cpp:446 | a printed integer is read back from in front of any non-digit exactly when it is a long of 32 bits |
| Decimal.StolReads | Translator/src/Source.cpp:446 | a code is read behind any white space, a sign and any leading zeros up to the first non-digit, if it is a long |
| Decimal.StolThrows | Translator/src/Source.cpp:446 | without a digit there it throws |
| Rendering.ApplyValue | Translator/src/Source.cpp:461-493 | a piece keeps the old text in front and appends exactly its meaning, or fails exactly when it has none |
| Rendering.ApplyAll | Translator/src/Source.cpp:341-374 | the loop over the pieces does the same for a list |
| Rendering.ApplyEach | Translator/src/Source.cpp:360-364 | the loop over the sub-objects does the same for an iteration section |
| Rendering.RenderEachIsConcat | Translator/src/Source.cpp:353-364 | an iteration section is the texts of its sub-objects in order, each rendered with that sub-object alone |
| Rendering.RenderEachFails | Translator/src/Source.cpp:353-364 | it fails exactly when its body fails for some sub-object |
| Rendering.RenderConcat | Translator/src/Source.cpp:346-347 | rendering a list of pieces is rendering its beginning and then the rest |
| Rendering.AlternativesExactly | Translator/src/Source.cpp:341-374 | a section on K=v and one on K!v with the same body render as that body once, for all bodies, data, codes and queries, under exactly the same condition |
| TemplateMeaning.HtmlMeans | Translator/src/Source.cpp:478-480 | a page text: what begins no marker is shown as it is, then the rest |
| TemplateMeaning.ValueMeans | Translator/src/Source.cpp:466-477 | a value tag shows the one string under its name, nothing without an entry, and fails on objects and on several strings |
| TemplateMeaning.QueryMeans | Translator/src/Source.cpp:484-490 | a query tag shows the element of the page's query, or nothing |
| TemplateMeaning.PlainSectionMeans | Translator/src/Source.cpp:343-348 | a section without a name shows its body |
| TemplateMeaning.CodeMeans | Translator/src/Source.cpp:308-319 | a code section shows its body exactly when the response has its code |
| TemplateMeaning.ConditionMeans | Translator/src/Source.cpp:308-319 | a conditional section shows its body exactly when its condition holds |
| TemplateMeaning.EqualMeans | Translator/src/Source.cpp:102-129 | the section on K=v shows its body exactly when the response has the one string v under K |
| TemplateMeaning.NotEqualMeans | Translator/src/Source.cpp:102-129 | the section on K!v shows it exactly when the response has not |
| TemplateMeaning.EachMeans | Translator/src/Source.cpp:350-364 | a named section shows its body for every object under the name, in order, nothing without an entry, and fails on strings |
| Responses.ResponseWrapper.FindKey | Shared/include/Response.h:38-46 | the loop finds the first entry with the key |
| Responses.ResponseWrapper.GenericAdd | Shared/include/Response.h:107-124 | the new entries are the old ones with one list extended or one entry last; keys stay distinct and lists non-empty |
| Responses.ResponseWrapper.AddString | Shared/include/Response.h:196-199 | the string goes behind those the key has, in the key's old entry or in a new last one with the flag given; every other lookup stays |
| Responses.ResponseWrapper.AddObject | Shared/include/Response.h:201-204 | the same for a sub-response |
| Responses.AddedKeepsBuilt | Shared/include/Response.h:107-124 | adding keeps keys distinct, lists non-empty, the order of keys and the bracket flag of an old key |
| Responses.AddedSearch | Shared/include/Response.h:206-217 | a search after adding finds the extended list under that key and the old content under every other |
| ResponseBuilding.BuildCollects | Shared/include/Response.h:107-124 | after any sequence of additions there is one entry for every key, in the order in which the keys came up, with the flag of its first addition and exactly the values added under it, in order |
| ResponseBuilding.SearchCollects | Shared/include/Response.h:206-217 | so a search finds exactly those values |
| ResponseRoundTrip.AddedSendable | Shared/include/Response.h:107-124 | adding sendable values under sendable keys keeps a response sendable |
| ResponsePrinter.EraseLastComma | Shared/include/Response.h:96 | erasing one character at the right distance removes exactly the last comma, in both modes |
| ResponsePrinter.StringToData | Shared/include/Response.h:49-61 | a string is appended, quoted and indented only when padded |
| ResponsePrinter.FieldToData | Shared/include/Response.h:149-158 | one entry is appended: key, colon, content |
| ResponsePrinter.ArrayToData | Shared/include/Response.h:86-99 | the bracketed list is appended behind the old text |
| ResponsePrinter.ContainerToData | Shared/include/Response.h:76-105 | the list is appended, with brackets for several values or when forced |
| ResponsePrinter.FieldsToData | Shared/include/Response.h:147-189 | the entries are appended, separated by commas |
| ResponsePrinter.ToData | Shared/include/Response.h:132-192 | the response's text of either mode is appended behind the old text |
| ResponseLayout.StringLayout | Shared/include/Response.h:132-192 | both texts of a string, spelled out: separators, line breaks, tabs, quotes |
| ResponseLayout.ListLayout | Shared/include/Response.h:76-99 | both texts of a list, bracketed whether forced or not, in the order of its values |
| ResponseLayout.ForcedLayout | Shared/include/Response.h:76-99 | both texts of a single value with forced brackets |
| ResponseLayout.ObjectLayout | Shared/include/Response.h:132-192 | both texts of an object inside an object |
| ResponseLayout.EntriesLayout | Shared/include/Response.h:147-189 | both texts of two entries, in their order |
| ResponseParser.MatchBracket | Shared/include/Response.h:233-252 | the loop finds the matching bracket or the end |
| ResponseParser.ReadStringArray | Shared/include/Response.h:326-346 | the loop collects the texts between commas |
| ResponseParser.ReadObjectArray | Shared/include/Response.h:287-324 | the loop collects the objects, or rejects, or runs out of its bounds, as specified |
| ResponseParser.ReadContent | Shared/include/Response.h:271-361 | the three branches read one value |
| ResponseParser.ReadField | Shared/include/Response.h:258-361 | one turn of the loop reads one entry, or finds no colon |
| ResponseParser.ReadData | Shared/include/Response.h:226-365 | the cursor loop computes the reading of the text; the empty text reads as the empty response, and any other without its outer braces is rejected |
| ResponseEdges.NoEntry | Shared/include/Response.h:258-264 | between the braces, text without a colon reads as no entry |
| ResponseEdges.UnclosedList | Shared/include/Response.h:326-346 | a list of strings without its closing bracket runs past the end |
| ResponseEdges.UnclosedObject | Shared/include/Response.h:271-285 | an object without its closing brace borrows the outer one and runs past the end, unless it is rejected |
| ResponseEdges.UnclosedInList | Shared/include/Response.h:287-324 | inside a list an object without its closing brace gets the whole text rejected, whatever follows |
| ResponseEdges.JunkInList | Shared/include/Response.h:287-324 | anything but an object behind an object of a list fails an assertion of the source |
| ResponseEdges.AnySeparator | Shared/include/Response.h:355-361 | the character behind a bracketed list is not looked at |
| ResponseRoundTrip.MatchWrapped | Shared/include/Response.h:233-252 | from an opening bracket over balanced text the match is the closing one |
| ResponseRoundTrip.ObjectFlat | Shared/include/Response.h:132-192 | printed text of a sendable response is balanced in both kinds of brackets |
| ResponseRoundTrip.SplitExactly | Shared/include/Response.h:326-346 | a printed list of strings splits back exactly when no string has a comma |
| ResponseRoundTrip.ObjectBack | Shared/include/Response.h:226-365 | reading the compact text of every sendable response succeeds and gives the response with its bracket flags normalised |
| ResponseShape.ReadShaped | Shared/include/Response.h:226-365 | from any text, a successful reading has no colon in a key, no comma in a value, no empty list, and marked brackets around several values, at every depth |
| ResponseShape.ShapedNorm | Shared/include/Response.h:132-192 | so a response that was read can be printed and is its own normal form |
| ResponseShape.ObjectBackExactly | Shared/include/Response.h:132-365 | every response without empty lists and without brackets in keys and values comes back normalised from its compact text if and only if no key has a colon and no value a comma |
| ResponseShape.CommaDivides | Shared/include/Response.h:355-358 | a value with a comma comes back cut at its first comma, followed by whatever entries the rest of it reads as |
| ResponseShape.CommaTruncates | Shared/include/Response.h:355-358 | without a colon in the rest it is dropped |
| ResponseShape.CommaInjects | Shared/include/Response.h:264-358 | a rest of the form key, colon, value comes back as a second entry |
| Unformatting.ReadUnformatted | Shared/include/Response.h:368-387 | the two filters and then the reader |
| Unformatting.RemoveQuotes | Shared/include/Response.h:380-384 | the second filter removes exactly the quotes |
| Unformatting.StripChar | Shared/include/Response.h:368-387 | outside quotes exactly white space goes, character by character |
| Unformatting.StripQuoted | Shared/include/Response.h:368-387 | between quotes everything stays and the quotes go |
| Unformatting.StripUnclosed | Shared/include/Response.h:368-387 | after a quote that is never closed everything stays |
| Unformatting.ObjectStrips | Shared/include/Response.h:368-387 | for every response without quotes, at every depth, filtering the padded text gives the compact text of the response with the white space of its keys removed |
| UnformattingExact.StripIsCompact | Shared/include/Response.h:368-387 | filtering the padded text gives exactly the compact text if and only if no key or value has a quote and no key has white space |
| UnformattingExact.UnformattedIsFormatted | Shared/include/Response.h:368-387 | then reading the padded text is reading the compact text |
| Pages.RenderAllNorm | Translator/src/Source.cpp:341-374 | bracket flags never reach a page |
| Pages.TransportInvisible | Translator/src/Source.cpp:534-538 | for every sendable response, template, code and query, rendering with the response read back from its text is rendering with the response |
| Pages.NormPrints | Shared/include/Response.h:132-192 | the response that comes back prints as the same text, in both modes |
| Pages.PrintReadPrint | Shared/include/Response.h:219-226 | printing, reading and printing again gives the same text |
| Pages.RenderComposes | Translator/src/Source.cpp:376-458 | a normal template's text followed by any text that parses, no marker straddling the join, renders as the one and then the other, for all data, codes and queries |
| Pages.StraddlingMatters | Translator/src/Source.cpp:257-273 | a witness that the condition on the join can fail: two harmless texts that together make a tag, and render differently |
| Pages.ApplyTranslation | Translator/src/Source.cpp:527-543 | the page for the empty response is the template on a response without entries, a text without outer braces is passed on as it is, and else a readable response is rendered and a rejected one passed on |
| Pages.ServePage | Translator/src/Source.cpp:527-543 | from the texts of a normal template and a sendable response, the page is the template's meaning on the response |
| Tables.InsertKeeps | Server/sqlcrt.txt:10-18 | inserting gives a fresh largest row ID and adds exactly one row |
| Tables.DeleteKeeps | Server/include/WebRoutes/Services.h:110 | deleting keeps the other rows in their order |
| Tables.DeleteValues | Server/include/WebRoutes/Services.h:221 | deleting removes exactly the rows with the value |
| Services.Database.CreateRequest | Server/include/WebRoutes/Services.h:23-74 | whatever fails, the invariant is kept; the request succeeds exactly when complete, allowed and undisturbed, as the new ID is never taken; it then added one unauthorised service with a new ID and nothing else; it is bad exactly when incomplete and forbidden exactly when complete and not allowed |
| Services.Database.AuthoriseRequest | Server/include/WebRoutes/Services.h:76-150 | whatever fails, the invariant is kept; the request succeeds exactly when a waiting service is named with a quote, allowed and undisturbed; it then moved that service to a new open active row and nothing else; the three refusals have exact conditions and change nothing |
| Services.Database.CloseService | Server/include/WebRoutes/Services.h:193-235 | whatever fails, the invariant is kept; the close succeeds exactly when the ID is not closed yet, allowed and undisturbed; the ID then left the open table for the closed one and nothing else changed; the two refusals have exact conditions and change nothing |
| Services.CreateAdds | Server/include/WebRoutes/Services.h:51-62 | the same of the request as a function of the tables, and one that fails has added the service alone or nothing |
| Services.AuthoriseMoves | Server/include/WebRoutes/Services.h:93-137 | the same of the authorisation, exactly when it throws, and what is left of the tables when it breaks off behind the deletion |
| Services.CloseFinishes | Server/include/WebRoutes/Services.h:193-235 | the same of the close, exactly when it throws, and one that fails in between has added the ID to the closed table and done nothing else |
| Services.RunSafe | Server/include/WebRoutes/Services.h:23-235 | after every history, whatever failed: no service is both unauthorised and active, none has two active rows, every open row names an existing active row |
| ServicePartition.CreatePartitions | Server/include/WebRoutes/Services.h:51-62 | under any failures a request keeps the partition exactly when it does not break off between its statements |
| ServicePartition.AuthorisePartitions | Server/include/WebRoutes/Services.h:110-137 | under any failures authorising keeps the partition exactly when it does not, behind the deleted row, throw for want of a quote or fail |
| ServicePartition.ClosePartitions | Server/include/WebRoutes/Services.h:211-221 | under any failures a close that takes effect keeps the partition exactly when its ID is that of an active row and its second statement does not fail |
| ServicePartition.CloseTwice | Server/sqlcrt.txt:18 | closing an ID that is already closed changes nothing |
| ServicePartition.CloseNeverLoses | Server/include/WebRoutes/Services.h:211-230 | open and closed together gain at most the ID; a failure between the statements leaves it in both |
| ServicePartition.RunPartitions | Server/include/WebRoutes/Services.h:23-235 | over every history with any failures: after every call services split exactly into unauthorised and active, and active rows exactly into open and closed, if and only if every call is harmless in its state (breaks off nowhere, throws for no missing quote, closes no ID but that of an active row) |
| ServicePartition.RunCovers | Server/include/WebRoutes/Services.h:23-235 | over every history with any failures: after every call every service is unauthorised or active and every active row open or closed, if and only if every call is harmless or a close that fails between its statements |
| ServicePartition.ServiceLost | Server/include/WebRoutes/Services.h:110-137 | a history of two calls, no statement failing, after which a service is neither unauthorised nor active |
| ServiceViews.ViewsOfRow | Server/include/WebRoutes/Services.h:519-606 | which list shows the service of an active row, and which status selectService reports |
| ServiceViews.NowhereListed | Server/include/WebRoutes/Services.h:746-868 | a service that is in neither table is in no list; selectService fails on it, and does not find one that was never requested |
| ServiceViews.ActiveIdIsServiceId | Server/include/WebRoutes/Services.h:858-861 | there are never more active rows than services, so an active ID is also a service ID |
| ServiceViews.SameIdsAgree | Server/include/WebRoutes/Services.h:746-848 | when every open service's active ID is the service's own ID, both views agree on every service |
| ServiceViews.ViewsAgreeExactly | Server/include/WebRoutes/Services.h:746-868 | in every partitioned state the views agree on all services if and only if the active ID and the service ID of every active row are in the open table together or not at all |
| ServiceViews.ViewsStayAgreeing | Server/include/WebRoutes/Services.h:746-868 | they agree, now and after whichever open service is closed next, if and only if every open service's active ID is the service's own ID |
| ServiceViews.InOrderViewsAgree | Server/include/WebRoutes/Services.h:491-868 | over every harmless history the views agree after every call and would after any next close, if and only if services became active in the order of their creation |
| ServiceViews.ViewsDisagree | Server/include/WebRoutes/Services.h:832-841 | a harmless history of five calls, no statement failing, after which a closed service is reported as open |
| PartsLedger.Ledger.AddPartToService | Server/include/WebRoutes/Services.h:283-357 | whatever fails, there stays one row per service and part with a positive quantity; the addition succeeds exactly when complete, allowed, of a positive 64-bit quantity and undisturbed; it then raised one part's count on one service by the quantity, one by default, and no other count; anything else changed nothing, and the two refusals have exact conditions |
| PartsLedger.Ledger.RemovePartFromService | Server/include/WebRoutes/Services.h:359-456 | the same invariant; the removal succeeds exactly when the entry is there with a 64-bit quantity, and it is allowed, of a positive 64-bit quantity and undisturbed; it then lowered the count of the entry's part on its service by the quantity or to zero, no other count, and the entry is gone exactly at zero; the three refusals have exact conditions |
| PartsLedger.RowIsCount | Server/include/WebRoutes/Services.h:376-377 | a row's quantity is the whole count of its part on its service |
| PartsLedger.RowIffCount | Server/include/WebRoutes/Services.h:313-339 | there is a row for a part on a service exactly when its count is positive |
| PartsLedger.AddCounts | Server/include/WebRoutes/Services.h:283-357 | the same of the addition as a function of the rows: exactly when it succeeds, and every count after it |
| PartsLedger.RemoveCounts | Server/include/WebRoutes/Services.h:359-456 | the same of the removal: exactly when it succeeds, every count after it as min(q, count), and when the row goes |
| PartsLedger.RunConserves | Server/include/WebRoutes/Services.h:283-456 | after every history, whatever failed: one row per service and part, positive quantities, every count exactly what the calls that could succeed added less what they removed |
| PartsTotals.TotalPrice | Server/include/WebRoutes/Services.h:562-584 | the loop gives up exactly when some joined row has an unreadable quantity, and else adds up price times quantity of the joined rows |
| PartsTotals.TotalMissing | Server/include/WebRoutes/Services.h:562-584 | in a good table it gives up exactly when the count of some existing part on the service does not fit 64 bits |
| PartsTotals.TotalIsWorth | Server/include/WebRoutes/Services.h:806-827 | the total is the sum over all parts of price times count |
| PartsTotals.AddRaisesTotal | Server/include/WebRoutes/Services.h:6-19 | adding q of a part raises its service's total by q times the price, and no other total |
| PartsTotals.RemoveLowersTotal | Server/include/WebRoutes/Services.h:6-19 | removing q lowers its service's total by min(q, count) times the price, and no other total |
| Queries.ContainsAll | Shared/include/Query.h:63-71 | true exactly when every name has an element, one without text counting only when allowed |
| Queries.ContainsAny | Shared/include/Query.h:73-81 | true exactly when some name has an element, one without text counting only when allowed |
| Forms.ParseURLValues | Shared/include/Query.h:10-40 | the cursor loop computes the decoding of the text |
| Forms.ParseConcat | Shared/include/Query.h:10-40 | for any two texts around an ampersand, the later elements win, and nothing in front of the ampersand is an element without a name |
| Forms.NameAlone | Shared/include/Query.h:19-33 | an element without an equals sign, or with nothing behind it, has an empty value |
| Forms.FirstEqualDivides | Shared/include/Query.h:19-33 | only the first equals sign divides |
| Forms.PercentDecodes | Shared/include/Query.h:25-29 | a percent sign and two hexadecimal digits of either case stand for one byte |
| Forms.StrayPercent | Shared/include/Query.h:25-29 | without two such digits it stands for itself |
| Forms.DecodeEncoded | Shared/include/Query.h:25-29 | decoding inverts every byte-by-byte encoding: as itself, plus for a space, or percent with two digits of either case |
| Forms.PairBack | Shared/include/Query.h:19-33 | an element of a raw name and an encoded value yields exactly the name and the value |
| Forms.ParseEncoded | Shared/include/Query.h:10-40 | for every list of raw names and encoded byte values the result is the last value of every name |
| Forms.BrowserFormBack | Shared/include/Query.h:10-40 | the same for the encoding a browser sends, for any byte values |
| Forms.PlusBeforePercent | Shared/include/Query.h:26-28 | with the two replacements in the other order every encoding of a value decodes to the value with each plus turned into a space, so it is inverted if and only if the value has no plus |
| Sessions.GetCookies | Server/include/Network.h:84-110 | the cursor loop computes the decoding of the cookie header |
| Sessions.SkipFrom | Server/include/Network.h:106-107 | the inner loop skips exactly the white space |
| Sessions.CookiesBack | Server/include/Network.h:84-110 | reading a well-formed cookie string gives the last value of every name |
| Sessions.NoCookie | Server/include/Network.h:84-110 | a piece without an equals sign or without a name is skipped, but white space behind it is not |
| Decimal.FromCharsToText | Server/include/Network.h:189 | a printed unsigned number is read back from in front of any non-digit exactly when it has 64 bits |
| Decimal.FromCharsReads | Server/include/Network.h:189 | so it is behind any leading zeros, and a text that does not begin with a digit is no number |
| Sessions.SessionIdBack | Server/include/Network.h:179-195 | an issued ID sent back as the last auth cookie of any well-formed string is recovered exactly |
| Sessions.BadAuthCookie | Server/include/Network.h:179-195 | a string whose last auth cookie does not begin with a digit has no session ID |
| Sessions.NoAuthCookie | Server/include/Network.h:179-195 | nor has one without an auth cookie |
| Sessions.Authenticator.Request | Server/include/Network.h:208-262 | a login with name and password gives up the session it comes with; an issued ID was drawn and free; without name and password nothing changes; no other session changes |
| Sessions.LoginIssues | Server/include/Network.h:208-262 | a login that matches the user u with permissions p issues the first drawn ID that is free, for user u at level p, wrapped at 2^31, and changes nothing else but to give up its old session |
| Sessions.NothingIssued | Server/include/Network.h:230-256 | a login that matches no user, or one with an unreadable column, issues nothing but gives up its old session |
| Sessions.Authenticator.Release | Server/include/Network.h:266-276 | a logout removes exactly the session it comes with |
| Sessions.StepTouches | Server/include/Network.h:208-276 | a call leaves every session alone that it does not release, whether or not it presents it, and issues no ID of another session |
| Sessions.RunTouches | Server/include/Network.h:208-276 | so does every history of calls |
| Sessions.KeptUntilReleased | Server/include/Network.h:208-276 | over every history that does not issue its ID again, a session is there at the end, unchanged, if and only if no call released it |
| Sessions.VerifiesUntilReleased | Server/include/Network.h:208-284 | from the login of a user with permissions p that issues it, an ID verifies at exactly the levels up to p, wrapped at 2^31, as long as no logout and no complete login presents it, and at no level from then on until issued again |
| Sessions.UnreleasedVerifies | Server/include/Network.h:208-284 | over histories that do not release it, it verifies at exactly those levels, whatever else is issued |

## Left out

- The flat result table and its aligned printer (`Server/include/Database.h`, `printResult`) and the CRUD routes for users, parts, suppliers and vehicles: they would only add easy members.
- `reopenService`, which is not registered, and `updateService`, which touches no column of this model.
- Sockets, curl handles, forwarding, link files and reading template files: calls into code that is not in the repository.
- SQLite itself: IDs and quantities are integers, not texts converted by column affinity; quantities and sums beyond 63 bits, which SQLite turns into floating point, are kept as integers; columns that nothing here depends on (dates, notes, labour, quotes, payments) are dropped.
- The vehicle, user and authoriser rows that the joins of the views need are taken as present.
- Who may call a route is a parameter, and so is the lookup of a login; the failure of the ownership query in `createRequest` changes no table and is not told apart from a refusal.
- Prices are the integers of the schema, so the rounding of `double` totals is not modelled.
- The warranty query and the completer and payment details of `selectService`.
- Random session IDs are a given sequence of draws that contains a free ID when a login matched, as the source then draws until it finds one; the password transformation is left out.
- ServiceViews.SelectStatus: models the last query of `selectService` only as far as whether it has a row, because the reported columns are joins without further use; `Closed` stands for the response with those columns, to which the source adds no `status` entry (Server/include/WebRoutes/Services.h:857-911).
- TemplateLossless.Lossless: one direction only; texts outside its condition that are nevertheless printed back are not characterised.
- ResponseShape.ObjectBackExactly: values with brackets in them, some of which come back when the brackets balance, are not characterised.
