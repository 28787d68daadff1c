# dravr-canot: verified model of the messaging core

dravr-canot carries chat between hosts and messaging platforms. This project models, in Dafny, the parts of it
whose correctness is not visible in any one function, and proves what they promise:

- **Rich text** (`RichText.dfy`, `Markdown.dfy`, `Dialect.dfy`, `Escaping.dfy`). Two parsers, an HTML subset and an
  inline-markdown subset, build one flat span tree that five printers turn into channel markup. `RichText.Readable`
  and `Markdown.Canonical` are the trees the parsers build; printing and parsing back is the identity on exactly those.
- **Slash commands** (`Commands.dfy`, `Aliases.dfy`, `Discipline.dfy`, `Menu.dfy`, `Formatter.dfy`). The registry's two
  maps, the greedy matcher with its one alias pass, the Telegram menu and template substitution. All of them walk hash maps;
  the results are proved not to depend on the order, or exactly when they do not. `Aliases.Chained` is what a second alias
  pass would find to do, and `Aliases.Diverts` what it would serve otherwise.
- **WhatsApp cards** (`Cards.dfy`). The widget a card becomes and the loop that keeps control titles distinct, which
  ends by a pigeonhole argument.
- **Claude channel bridge** (`Permission.dfy`, `Bridge.dfy`). Webhook calls feed a bounded channel, one loop drains it,
  and a map of pending permissions is filled and emptied. `Bridge.World` is the whole of it as a step system, over every
  interleaving.
- **Discord gateway** (`Gateway.dfy`, `Reconnect.dfy`). One session's event loop with its trace, and the reconnect loop.
- **Wire text** (`TelegramText.dfy`, `TelegramCommands.dfy`, `PercentDecode.dfy`). A mention search that jumps, a command
  suffix and what the matcher makes of it, and form decoding.

`Chars.dfy` holds the string operations of the Rust standard library the others use.

The `Written` modules (`WrittenStrings.dfy`, `WrittenText.dfy`, `WrittenCommands.dfy`, `WrittenCards.dfy`,
`WrittenBridge.dfy`, `WrittenGateway.dfy`, `WrittenWire.dfy`) say what the operations do with every tag, mark, character,
cap, opcode and name in letters and numbers, and by no constant or test the operations share with the laws.

Code that works by changing things step by step is modelled by methods and classes whose contracts equate their result or
new state with a function; the laws are lemmas about that function. `trace`, `log` and the history fields of `World` are
what the laws speak of and nothing in the code reads them.

## Model

| member | source | states |
|---|---|---|
| RichText.TryMatchTag | src/rich_text.rs:91-107 | the table loop returns the first tag whose opener heads the rest and whose closer follows |
| RichText.Parse | src/rich_text.rs:54-84 | the cursor loop emits exactly the spans of the scan |
| RichText.RenderRichText | src/rich_text.rs:431-454 | the loop prints every span in the dialect |
| RichText.RenderAfterParse | src/rich_text.rs:49-84 | printing what was parsed gives the input back, for every string: malformed tags survive as literal text |
| RichText.ParseIsReadable | src/rich_text.rs:54-107 | every parsed tree has no empty or adjacent texts, no text that reads as a tag where it stands, no body holding its closer |
| RichText.ParseAfterRender | src/rich_text.rs:423-454 | parsing what was printed gives the tree back if and only if the tree is of that kind |
| RichText.LiteralExactly | src/rich_text.rs:16-19 | the whole input stays one text if and only if no opener in it finds its closer |
| RichText.RenderPlain | src/rich_text.rs:276-289 | the loop prints the contents without markers |
| RichText.PlainIsVerbatimExactly | src/rich_text.rs:276-289 | the plain text is what was typed if and only if nothing in it reads as a tag |
| RichText.InnerTagIsText | src/rich_text.rs:21-24 | one nesting level: an inner tag stays in the body, its closing form included |
| WrittenText.TagsRead | src/rich_text.rs:109-120 | a text between `<b>` and `</b>`, `<i>` and `</i>` or `<code>` and `</code>` is that one span if and only if the closing tag is not in it |
| WrittenText.TagsPrinted | src/rich_text.rs:431-454 | each span is printed between those tags, and a text as it is |
| WrittenText.NoOpenerIsText | src/rich_text.rs:16-19 | where none of the three openers is spelled there is one text and nothing else |
| WrittenText.PlainWrittenOut | src/rich_text.rs:276-289 | the plain text is the contents one behind the other |
| Markdown.FindCloser | src/rich_text.rs:379-400 | the jumping search returns the least closing index: an unescaped delimiter that closes a non-empty run and, for emphasis, touches text and no other asterisk |
| Markdown.TryMatchMarkdown | src/rich_text.rs:339-377 | the table loop returns the first delimited run at the head of the rest |
| Markdown.ParseMarkdown | src/rich_text.rs:291-337 | the loop emits exactly the spans of the scan |
| Markdown.UnescapeMarkdown | src/rich_text.rs:402-421 | the peeking loop drops the backslash of every escape pair |
| Markdown.EscapeMarkdown | src/rich_text.rs:254-274 | the loop puts a backslash before each of the four metacharacters |
| Markdown.RenderDiscordMarkdown | src/rich_text.rs:222-252 | the loop prints every span with its delimiters, all but code bodies escaped |
| Markdown.UnescapeOfEscape | src/rich_text.rs:254-274 | unescaping undoes escaping |
| Markdown.ParseIsCanonical | src/rich_text.rs:291-337 | every tree read from markdown is canonical |
| Markdown.ParseAfterDiscord | src/rich_text.rs:293-296 | printer and parser are inverses on a tree if and only if it is canonical, the "well-formed" of the documentation |
| Markdown.NormalForm | src/rich_text.rs:291-337 | printing and parsing again changes no parsed tree, for every input |
| Markdown.EscapedTextIsText | src/rich_text.rs:254-260 | escaped free text is read back as that text and opens no run, whatever it holds |
| Markdown.EscapedNameInBold | src/rich_text.rs:256-258 | an escaped name between `**` is one bold span of that name if and only if it is not empty, does not start or end in white space and does not end in `*` or a backslash |
| WrittenText.EscapesWrittenOut | src/rich_text.rs:254-274 | exactly the backslash, the asterisk, the underscore and the backtick get a backslash, character by character |
| WrittenText.UnescapesWrittenOut | src/rich_text.rs:402-421 | a backslash is dropped before exactly those four |
| WrittenText.BackslashWrittenOut | src/rich_text.rs:304-337 | typed behind a backslash those four are text without it, and any other character keeps it |
| WrittenText.DiscordPrinted | src/rich_text.rs:222-252 | bold, italic and code are printed between `**`, `*` and backticks, escaped but for code |
| WrittenText.RunsWrittenOut | src/rich_text.rs:339-400 | when a content between those delimiters is read back as that one run, as a condition on its characters |
| WrittenText.MarkdownKeepsInput | src/rich_text.rs:291-337 | for every input: it is its spans in order, each between its delimiters, code as typed and other contents up to a backslash before one of the four; nothing is lost or made up |
| Dialect.MarkdownCompiles | src/rich_text.rs:26-30 | a channel that reads the compiled markdown sees the author's tree if and only if no content reads as a tag, and always when the markdown spells none |
| Dialect.TypedTagIsReread | src/rich_text.rs:427-429 | any of the three tags, typed in markdown round a body without metacharacters that does not close it, is text there and a span once compiled |
| Escaping.EscapeSlack | src/rich_text.rs:183-187 | the three replaces in order equal the one-pass character map |
| Escaping.ThreeReplaces | src/rich_text.rs:183-187 | the same as an equation, for every text |
| Escaping.EscapeIsLossless | src/rich_text.rs:152-156 | the escaped text holds no angle bracket and decodes to the original |
| Escaping.RenderTelegramHtml | src/rich_text.rs:122-150 | the loop prints the dialect with every content encoded |
| Escaping.TelegramIsLossless | src/rich_text.rs:122-150 | reading the HTML gives the tree with contents encoded, and decoding them gives the tree, if and only if it has no empty or adjacent texts |
| Escaping.RenderSlackMrkdwn | src/rich_text.rs:152-181 | the loop prints every span in Slack's marks with its content escaped |
| Escaping.RenderWhatsAppText | src/rich_text.rs:189-220 | the loop prints every span in WhatsApp's marks |
| Escaping.SlackDecodesToWhatsApp | src/rich_text.rs:152-220 | Slack's text has no angle bracket and decodes to the text WhatsApp gets |
| WrittenText.EntitiesWrittenOut | src/rich_text.rs:183-187 | the three characters and their entities, and no other change |
| WrittenText.TelegramPrinted | src/rich_text.rs:122-150 | the three tags round encoded contents |
| WrittenText.SlackPrinted | src/rich_text.rs:152-181 | an asterisk, an underscore and a backtick round escaped contents |
| WrittenText.WhatsAppPrinted | src/rich_text.rs:189-220 | the same marks round the contents as they are |
| Commands.CommandRegistry.Register | src/commands/registry.rs:32-52 | the new maps, and false exactly for a name already there |
| Commands.CommandRegistry.SortedCommands | src/commands/registry.rs:169-175 | every lookup key once, longest first |
| Commands.BuildIsConsistent | src/commands/registry.rs:35-67 | after any registrations every key resolves to a live definition that has it, and every key of a definition is there |
| Commands.RegisterTakesKeys | src/commands/registry.rs:41-48 | a registration takes its keys over from whoever had them |
| Commands.LongestMatch | src/commands/matcher.rs:90-113 | the greedy search finds the longest registered key ending at a word boundary, and nothing when none fits |
| Commands.MatchIgnoresOrder | src/commands/matcher.rs:14-17 | two hash-map orders give the same parsed command for every text |
| WrittenCommands.RegisterWrittenOut | src/commands/registry.rs:35-67 | a new definition answers to its command and to every alias in any case, and to nothing else; a known name changes nothing |
| WrittenCommands.PrefixWrittenOut | src/commands/matcher.rs:95-113 | the match is the longest head of the text that answers to a command and ends at a space or the end, with what follows it |
| WrittenCommands.BlanksAndSlashes | src/commands/matcher.rs:51-57 | white space round a text does not matter, and a text that starts with no slash is no command |
| WrittenCommands.RequestWrittenOut | src/commands/matcher.rs:59-88 | what a trimmed request runs and with which arguments, by its match and the match under the command's own spelling |
| WrittenStrings.TrimWrittenOut | src/commands/matcher.rs:52 | trimming takes all white space off both ends and nothing else |
| WrittenStrings.SplitWrittenOut | src/commands/matcher.rs:61-65 | arguments are split at white space and nowhere else |
| WrittenStrings.WhiteWrittenOut | src/commands/matcher.rs:52 | the twenty-five characters that are white space |
| WrittenStrings.LowerWrittenOut | src/commands/matcher.rs:96 | lowering turns the capitals into their small letters and keeps the rest |
| Aliases.OnePassExactly | src/commands/matcher.rs:75-88 | a second canonicalising pass changes no request's match if and only if no two alias keys are chained: the second is or goes on from the canonical command of the first, in a text the first leads |
| Aliases.OnePassServesExactly | src/commands/matcher.rs:78-80 | a second pass would run the same handler with the same arguments on every text if and only if no chain goes on to a key with another handler or takes a word of the arguments |
| Aliases.AliasStandsExactly | src/commands/matcher.rs:17-23 | an alias key stands for its canonical command, in any case and before any tail the alias leads, if and only if no chain from the alias is of that kind and, when the alias can be typed alone, the command typed alone runs the alias's handler: for a command that ends in no white space, if it still leads to the alias's definition |
| Discipline.CommandAsAliasChains | src/commands/matcher.rs:78-80 | a canonical command that is an alias key in force is chained to every alias of its own: what the comment takes for granted is needed |
| Discipline.SingleWordsDoNotChain | src/commands/matcher.rs:78-80 | and with aliases of one word it is enough |
| Discipline.OnePassSuffices | src/commands/matcher.rs:75-88 | under the alias discipline canonicalising a second time changes nothing |
| Discipline.BuildIsDisciplined | src/commands/registry.rs:35-52 | registering definitions that are pairwise apart, in any order, meets the discipline |
| Discipline.AliasIsTransparent | src/commands/matcher.rs:17-23 | under the discipline every alias and its command, typed in any case and followed by the same arguments, name the same handler with the same arguments |
| Discipline.TangledAliasMisleads | src/commands/matcher.rs:78-80 | three definitions that can be registered, the command of one an alias of another, on which an alias and its command name different handlers |
| Discipline.SlashBFoo | src/commands/matcher.rs:78-80 | for one, with `/b` for `/a`, `/a` for `/x`, and `/x foo`: `/b foo` runs the definition of `/x` and `/a foo` that of `/x foo` |
| Menu.BotCommandListDescribed | src/commands/registry.rs:135-167 | collecting, extending, sorting and deduplicating build the menu |
| Menu.MenuContents | src/commands/registry.rs:127-133 | strictly ascending, free of spaces, and holding exactly the single-token names and the single-token aliases of multi-word commands |
| Menu.OwnNameWins | src/commands/registry.rs:110-111 | the one command published under a name gives its row the description, whatever aliases spell it too |
| Menu.MenuIgnoresOrder | src/commands/registry.rs:145-166 | when all definitions that decide a row describe it alike, the menu does not depend on the map's order |
| Menu.MenuOrderExactly | src/commands/registry.rs:145-166 | and only then: a row is decided by the commands published under its name, or if there are none by the stand-ins |
| WrittenCommands.MenuWrittenOut | src/commands/registry.rs:135-167 | what is listed under a name: a trigger that is slashes and that one word, or an alias of that shape of a command with a space in its trigger |
| WrittenCommands.MenuOrderWrittenOut | src/commands/registry.rs:164-166 | the rows ascend character by character |
| Formatter.FormatResponse | src/commands/formatter.rs:29-38 | the loop applies one replacement per binding |
| Formatter.FormatIsSimultaneous | src/commands/formatter.rs:10-12 | for clean bindings (where a safe template can spell the placeholder, no brace in the key and no `{` in the value) and a safe template, one in which no opening brace that names no hole has a closing brace after it, any order fills every bound hole at once and leaves the rest as it is |
| Formatter.OrderFreeIffSafe | src/commands/formatter.rs:33-37 | a template reads the same in every order of every clean map if and only if its braces are of that kind |
| Formatter.BracedValueShowsOrder | src/commands/formatter.rs:34-36 | for every value with an opening brace there are a safe template, a key and one clean binding beside it that show the order |
| Formatter.CleanValuesExactly | src/commands/formatter.rs:34-36 | so the values that never show it on a safe template are exactly those without an opening brace |
| Formatter.CleanKeysExactly | src/commands/formatter.rs:34-36 | and the keys that never do are exactly those without a brace and those whose placeholder no safe template can hold; only a closing brace in a key does harm |
| WrittenCommands.HoleByHole | src/commands/formatter.rs:29-38 | text without an opening brace stays, and a name between braces becomes its value or stays if it has none, one hole behind the other |
| Cards.UniqueTitle | src/channels/whatsapp/renderer.rs:155-163 | the loop ends, with the label cut to size or the least free ordinal tag |
| Cards.UniqueTitles | src/channels/whatsapp/renderer.rs:147-167 | one title per action, in order |
| Cards.Pigeonhole | src/channels/whatsapp/renderer.rs:157-163 | at most as many ordinals are taken as there are titles |
| Cards.TitlesAreDistinct | src/channels/whatsapp/renderer.rs:149-151 | no two titles are the same |
| Cards.TitleShape | src/channels/whatsapp/renderer.rs:155-163 | a title is its label cut, or that with the first free ordinal, at most the number of earlier titles plus two |
| Cards.CandidateFits | src/channels/whatsapp/renderer.rs:159-161 | a disambiguated title keeps to the cap if and only if its ordinal tag does |
| Cards.TitlesFit | src/channels/whatsapp/renderer.rs:104-107 | up to ten titles stay within the cap and are not empty |
| Cards.RenderCard | src/channels/whatsapp/renderer.rs:114-136 | the payload chosen for the card |
| Cards.CardAsText | src/channels/whatsapp/renderer.rs:247-263 | the text degradation lists every action |
| Cards.CardKeepsEveryAction | src/channels/whatsapp/renderer.rs:100-145 | buttons only for one to three actions, a list only for four to ten, every id in order, untruncated and within its cap, titles distinct and within theirs, no url action in a widget; otherwise text that lists every action |
| Cards.CardTextsReachTheReader | src/channels/whatsapp/renderer.rs:169-186 | a widget's body is empty only for a blank card, and its title is in the header or stands for the body |
| Cards.TapIsTheCommand | src/channels/whatsapp/transport.rs:230-247 | a tap on control i reads as exactly the value of action i |
| WrittenCards.WidgetWrittenOut | src/channels/whatsapp/renderer.rs:114-145 | which cards become buttons, which a list and which text, by the labels, types, values and number of their actions |
| WrittenCards.WidgetTextsWrittenOut | src/channels/whatsapp/renderer.rs:169-229 | a widget's body, header and open label, by what is blank and with the caps of sixty and twenty characters |
| WrittenCards.WidgetControlsWrittenOut | src/channels/whatsapp/renderer.rs:189-218 | a control's id is its action's value, its title cut at twenty or twenty-four |
| WrittenCards.TitlesWrittenOut | src/channels/whatsapp/renderer.rs:152-167 | a title is the trimmed label cut to size, or a shorter cut with a space and the least decimal number from 2 on that makes it new |
| WrittenCards.TextWrittenOut | src/channels/whatsapp/renderer.rs:247-263 | the text is the title between asterisks, the body, and a line of label and value for every action, in order |
| WrittenCards.TapWrittenOut | src/channels/whatsapp/transport.rs:230-247 | a tap is read from the button's id, or else the row's |
| Permission.PermissionRelay.TryConsumeVerdict | crates/dravr-canot-claude-channel/src/permission.rs:74-117 | the new map and the verdict; a wrong-chat entry is put back |
| Permission.PermissionRelay.HandleRequest | crates/dravr-canot-claude-channel/src/permission.rs:119-150 | registers the request unless its id is empty or its channel unknown |
| Permission.VerdictIsPattern | crates/dravr-canot-claude-channel/src/permission.rs:64-67 | a reply is a verdict if and only if it matches the pattern, and for the word and id matched |
| Permission.PendingIsHistory | crates/dravr-canot-claude-channel/src/permission.rs:80-150 | an id is pending with a route exactly when its latest registration came after its latest accepted verdict and carried that route, and each accepted verdict answers such a registration |
| Permission.NoVerdictWithoutRequest | crates/dravr-canot-claude-channel/src/permission.rs:76-79 | accepted verdicts of an id never outnumber its registrations |
| Permission.VerdictsAreNotReplayed | crates/dravr-canot-claude-channel/src/permission.rs:77-105 | a reply that is not accepted changes nothing, and one that is cannot be repeated |
| Permission.AnswerableIds | crates/dravr-canot-claude-channel/src/permission.rs:64-88 | a pending id can be answered exactly when it is written in the id alphabet |
| WrittenBridge.VerdictWrittenOut | crates/dravr-canot-claude-channel/src/permission.rs:64-88 | a text is a verdict if and only if it is one of four words and five letters other than `l` with white space between, and allows for `y` and `yes` |
| WrittenBridge.ConsumeWrittenOut | crates/dravr-canot-claude-channel/src/permission.rs:80-117 | a verdict is accepted exactly when its id is pending on the route it came by |
| WrittenBridge.RequestWrittenOut | crates/dravr-canot-claude-channel/src/permission.rs:119-150 | a request is pending on its route, unless its id is empty or its channel none of the five names |
| WrittenBridge.ChannelsWrittenOut | src/models.rs:75-101 | the five channel names |
| Bridge.EventQueue.TrySend | crates/dravr-canot-claude-channel/src/webhook.rs:127-143 | delivers, or says full or closed and changes nothing |
| Bridge.HandleWebhook | crates/dravr-canot-claude-channel/src/webhook.rs:88-150 | one undisturbed call enqueues a prefix of its gated messages that fits the channel, all of them exactly when it answers 200; 503 says it filled the channel, 500 that the channel was closed |
| Bridge.AloneIsForwarding | crates/dravr-canot-claude-channel/src/webhook.rs:88-150 | the steps of a call nothing disturbs enqueue the same events and give the same answer as that loop |
| Bridge.McpLoop.HandleChannelEvent | crates/dravr-canot-claude-channel/src/mcp.rs:223-277 | the new loop state, whether or not the event was a verdict and stdout took the notification |
| Bridge.McpLoop.HandlePermissionRequest | crates/dravr-canot-claude-channel/src/mcp.rs:171-201 | a prompt is registered for the last sender's chat, and none without a sender |
| Bridge.FifoConservation | crates/dravr-canot-claude-channel/src/mcp.rs:76-112 | in every interleaving the completed events, then the one in hand, then the queue, then what died with the loop, are the events sent, in order |
| Bridge.AnsweredEventCanDie | crates/dravr-canot-claude-channel/src/mcp.rs:101-108 | with any capacity a call can answer 200 for an event that dies with the loop: it takes a place while another event is in hand, and the write fails |
| Bridge.OnlyGatedMessagesEnter | crates/dravr-canot-claude-channel/src/webhook.rs:88-125 | every event sent carries a message of an allowed sender with a name, with its content, turn and chat |
| Bridge.AnswerTellsWhatWasEnqueued | crates/dravr-canot-claude-channel/src/webhook.rs:88-149 | in every interleaving a call's events are a prefix of its gated messages, and all of them exactly when it answered 200 |
| Bridge.EventsAreAnsweredAndRouted | crates/dravr-canot-claude-channel/src/mcp.rs:186-277 | each completed event emits one notification: a ruling exactly when it is a verdict from the chat its request was last prompted in and nothing has ruled on that request since, else the event itself; accepted verdicts reach stdout once and in order while the loop is open, and all but the one whose write failed when it has ended; each prompt goes to the chat of the event completed last |
| Bridge.PendingIsOutstanding | crates/dravr-canot-claude-channel/src/permission.rs:80-150 | while the loop is open a request is pending on a route exactly when it was last prompted for there and stdout has no ruling on it since |
| Bridge.BridgePendingIsHistory | crates/dravr-canot-claude-channel/src/permission.rs:80-150 | the pending map of every run is what its history says |
| WrittenBridge.SentIsLetIn | crates/dravr-canot-claude-channel/src/webhook.rs:88-125 | in every run each event sent is that of a sender who is on the list, or let in by the open gate, and not empty, with its name, channel, chat and text |
| WrittenBridge.OkSentAll | crates/dravr-canot-claude-channel/src/webhook.rs:88-149 | a call answered 200 has sent exactly one event for each message of such a sender, in order |
| WrittenBridge.OutsidersSendNothing | crates/dravr-canot-claude-channel/src/webhook.rs:91-98 | a call of senders who are not on the list sends nothing and is answered 200, whatever the channel's state |
| WrittenBridge.UndisturbedSelects | crates/dravr-canot-claude-channel/src/webhook.rs:88-149 | the same of one undisturbed call, with its answers |
| WrittenBridge.CallStepsWrittenOut | crates/dravr-canot-claude-channel/src/webhook.rs:88-149 | each step of a call |
| WrittenBridge.LoopStepsWrittenOut | crates/dravr-canot-claude-channel/src/mcp.rs:76-112 | each step of the loop while it runs |
| WrittenBridge.RunStepsWrittenOut | crates/dravr-canot-claude-channel/src/mcp.rs:76-112 | an ended loop does nothing, and a run is its steps |
| WrittenBridge.LoopWrittenOut | crates/dravr-canot-claude-channel/src/mcp.rs:223-277 | what the loop makes of an event, by the route it came by |
| WrittenBridge.AskWrittenOut | crates/dravr-canot-claude-channel/src/mcp.rs:171-201 | a permission request goes to the last sender's chat |
| WrittenBridge.PromptsWrittenOut | crates/dravr-canot-claude-channel/src/mcp.rs:186-197 | in every run each prompt went to the channel and chat of the event completed last |
| Gateway.Session.HandleText | src/channels/discord/gateway.rs:331-411 | the new session state for a text frame |
| Gateway.Session.HeartbeatTick | src/channels/discord/gateway.rs:281-299 | the new session state for a timer tick |
| Gateway.Session.RunEventLoop | src/channels/discord/gateway.rs:267-317 | the loop is the fold of its inputs, until one ends it |
| Gateway.ForwardedExactlyFromOthers | src/channels/discord/gateway.rs:460-537 | forwarded exactly when someone other than a bot wrote a non-empty message; every field, direct exactly outside a guild, and addressed exactly when direct, mentioning or answering the bot |
| Gateway.HeartbeatsAreAcked | src/channels/discord/gateway.rs:279-316 | in every run two timer heartbeats have an ACK between them |
| Gateway.HeartbeatsCarryLastSequence | src/channels/discord/gateway.rs:287-290 | every heartbeat carries the last sequence number received |
| Gateway.RequestsAreAnswered | src/channels/discord/gateway.rs:384-394 | the server's heartbeat requests, and nothing else, are answered outside the timer, each at once |
| Gateway.TickBeatsOrEnds | src/channels/discord/gateway.rs:281-299 | a tick with an outstanding ACK ends the session, any other sends a beat |
| Gateway.FramesThatEndASession | src/channels/discord/gateway.rs:347-408 | the frames that end a session, and why |
| Gateway.ForwardedAreDue | src/channels/discord/gateway.rs:347-379 | the messages forwarded are those the frames call for, in order, under the bot id of the latest READY; only a dropped receiver costs one |
| Gateway.ForwardedAreOfInputs | src/channels/discord/gateway.rs:267-411 | a session forwards exactly the messages due of the frames that parsed among the inputs it took, in order; only a dropped receiver costs the last |
| Gateway.TraceIsComplete | src/channels/discord/gateway.rs:331-345 | the trace of a session, running or ended, records every text frame that parsed among the inputs it took |
| Gateway.DecidedByConsumed | src/channels/discord/gateway.rs:267-317 | a session is decided by the inputs it took and was open before the last of them |
| WrittenGateway.FrameWrittenOut | src/channels/discord/gateway.rs:331-411 | what a frame does, by opcodes 0, 1, 7, 9 and 11 and the events `READY` and `MESSAGE_CREATE` |
| WrittenGateway.InputsWrittenOut | src/channels/discord/gateway.rs:279-316 | what every other input does |
| WrittenGateway.RunWrittenOut | src/channels/discord/gateway.rs:243-317 | how a session opens, goes on and ends |
| Reconnect.RunGatewaySession | src/channels/discord/gateway.rs:183-261 | the bot id kept and the outcome of one session run under the id kept before |
| Reconnect.StartGateway | src/channels/discord/gateway.rs:113-159 | where the loop stops and what it slept, for any sessions run one after the other |
| Reconnect.DelayBounds | src/channels/discord/gateway.rs:539-545 | delays stay within 1 and 60 s, never shrink with the attempt, and never saturate the multiply |
| Reconnect.StopsAtTheEleventh | src/channels/discord/gateway.rs:134-147 | the loop gives up with exactly the eleventh session in a row that did not count as ready |
| Reconnect.StreakSleepsAtMost362Seconds | src/channels/discord/gateway.rs:134-157 | no streak of failures sleeps more than 362 s, and a full one sleeps exactly that |
| Reconnect.ReadinessIsSticky | src/channels/discord/gateway.rs:180-261 | a session counts as ready exactly when it got past IDENTIFY and some session so far saw READY with a user id |
| Reconnect.IdleSessionCountsAsReady | src/channels/discord/gateway.rs:256-260 | so after one READY a session that never sees READY still resets the failure count |
| Reconnect.GivesUpOnlyOnDeadConnections | src/channels/discord/gateway.rs:113-159 | and after one READY the loop gives up only on eleven sessions in a row that failed before their event loop |
| WrittenGateway.SessionWrittenOut | src/channels/discord/gateway.rs:183-261 | the outcome of a session: a dropped receiver exactly if its event loop met one |
| WrittenGateway.StopsWrittenOut | src/channels/discord/gateway.rs:121-147 | the reconnect loop stops with the first session that lost its receiver, or the eleventh in a row that was not ready, and with no other |
| WrittenGateway.StreakWrittenOut | src/channels/discord/gateway.rs:128-133 | the failures counted are the sessions since the last that was ready |
| WrittenGateway.WaitsWrittenOut | src/channels/discord/gateway.rs:149-157 | the wait after each session goes by that count |
| WrittenGateway.DelaysWrittenOut | src/channels/discord/gateway.rs:539-545 | the delays in milliseconds |
| TelegramText.TextMentionsUsername | src/channels/telegram/transport.rs:262-282 | the loop computes the jumping search |
| TelegramText.MentionIsExact | src/channels/telegram/transport.rs:262-282 | what it reports is a mention at a word boundary; it misses none, in any text, if and only if no overlap of `@name` with itself hides a boundary, and a name without `@` has no overlap |
| TelegramText.StripIsExact | src/channels/telegram/transport.rs:235-260 | the suffix is dropped exactly from a command that carries this bot's name, and nothing else changes |
| TelegramText.StrippedWasMention | src/channels/telegram/transport.rs:235-282 | whatever is stripped mentioned the bot, and what remains is bare |
| WrittenWire.MentionWrittenOut | src/channels/telegram/transport.rs:262-282 | a mention is an at sign and the name in any case, with no letter, digit or underscore behind it |
| TelegramCommands.PrecheckLosesNothing | src/channels/telegram/transport.rs:169-184 | asking for the username only when the first word holds an at sign changes no result |
| TelegramCommands.SuffixIsUnknownExactly | src/channels/telegram/transport.rs:238-240 | unstripped, every command with an at sign in its first word is unknown to the matcher if and only if no key has one there |
| TelegramCommands.SuffixIsHeardExactly | src/channels/telegram/transport.rs:235-260 | then a command that names this bot is matched as the bare command with the same rest, and one that names another bot, or is met before the name is known, as none |
| PercentDecode.PercentDecode | src/channels/slack/transport.rs:621-657 | the index loop decodes the whole input |
| PercentDecode.DecodeInvertsEncoders | src/channels/slack/transport.rs:621-657 | decoding undoes every percent and plus encoder, byte for byte (section 2.1 of RFC 3986, with `+` for space) |
| PercentDecode.EveryByteHasAForm | src/channels/slack/transport.rs:635-646 | every byte is decoded from some escape |
| PercentDecode.DecodeIsIdentity | src/channels/slack/transport.rs:629-656 | decoding leaves a string alone exactly when it has no `+` and no escape that parses |
| PercentDecode.SignedEscape | src/channels/slack/transport.rs:641-643 | `%+5` decodes to 5, as Rust's radix parser takes a sign |
| WrittenWire.EscapeWrittenOut | src/channels/slack/transport.rs:635-646 | `%` and two hexadecimal digits of either case, or a plus and one, decode to what they are worth |
| WrittenWire.OthersWrittenOut | src/channels/slack/transport.rs:629-656 | a plus decodes to a space and every other byte that begins no escape to itself |

## Where the code and its documentation differ

The model follows the code.

- src/rich_text.rs:21-23 says `<b>outer<i>inner</i></b>` parses as bold `outer<i>inner`; the body keeps the inner closing
  tag too (`RichText.InnerTagIsText`).
- src/rich_text.rs:256-259 says an escaped name in `**{name}**` cannot open a run. It cannot, but a name that ends in `*`
  or a backslash is not read back as bold either (`Markdown.EscapedNameInBold`).
- src/commands/matcher.rs:78-80 says that canonical commands are never aliases, so that a single pass suffices. `register`
  does not enforce it, and `Discipline.SlashBFoo` is a table on which a single pass misleads. Nor is it all that is needed:
  an alias of several words can go on from a canonical command. `Aliases.OnePassExactly` and `Aliases.OnePassServesExactly`
  say of every table whether one pass is enough, as a condition on its keys; `Discipline.Disciplined` is a discipline on the
  definitions that is sufficient and not necessary.
  The word boundary is a space alone: after any other white space neither an alias nor a command matches as a whole word.
- src/channels/discord/gateway.rs:256 says a session is ready if the bot id arrived during it; the id is never cleared
  (`Reconnect.ReadinessIsSticky`). Line 539 mentions jitter; there is none.

## Left out

- UTF-8 byte offsets: strings are sequences of characters; every index the code uses falls on a character boundary.
- Unicode case folding, in commands and in the verdict pattern: case is ASCII case, under which lowering keeps lengths.
- `html_escape::encode_text` is a library function, modelled by the three entities src/rich_text.rs:541-555 expects of it.
- The JSON envelopes of cards and of MCP, `tools/call`, and the fields `domain` and `required_role`: constants and lookups.
- Formatter.FormatResponse: takes the bindings as a list in the map's order; `Formatter.Lists` says when a list is one.
- Menu.BotCommandListDescribed: takes the definitions as a list in the map's order, and the two library sorts are the insertion sorts that give the same lists.
- Commands.CommandRegistry.SortedCommands: leaves the order of keys of one length open, as the hash map does.
- Formatter.OrderFreeIffSafe: quantifies over clean bindings; an unclean one can be harmless in a given template or beside given bindings.
- Aliases.AliasStandsExactly: for tails that, trimmed, are empty or start with a space, the only ones the matcher lets follow a key, and for texts the alias itself leads; and for an alias and a command that start with a slash, as the matcher looks at no other text.
- TelegramCommands.SuffixIsHeardExactly: asking Telegram for the bot's username is a parameter, `None` when it fails.
- Cards.RenderCard: the body is taken as already rendered by the rich-text printer.
- Permission.PermissionRelay.HandleRequest: sending the prompt, and its failures, change no state and are left to the adapter.
- Bridge.HandleWebhook: starts where parsing has succeeded; the 400, 401 and 404 answers before it touch no state, and text extraction from a message's content is done.
- Bridge.FifoConservation: wake-ups and lock waits are not modelled; a verdict is taken from the map and its event written in one step, as nothing else touches either meanwhile.
- Gateway.Session.RunEventLoop: the socket, the timer and the receiver are a list of inputs with the outcome of each send; the three-second wait after an invalid session is left out.
- Reconnect.StartGateway: takes its sessions as a list, each with how far it got; its log lines and error classes are left out.
- PercentDecode.PercentDecode: works on bytes; the final lossy UTF-8 conversion is left out.
- Signature checks, configuration, the channel registry, retry timing, counters and the AG-UI throttles are not part of this model.
