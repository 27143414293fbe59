# Interview platform: a verified model

A Dafny model of the parts of the interview backend whose correctness depends on more than one
function, process or request: reading questions and answers back from a conversation log, refresh
token families, the life of a session with its transcript and report across the API, the voice agent
and the periodic workers, saving "the one active record", expiring counters, model calls with
retries, and the cache of prepared interviews.

`dafny verify dfyconfig.toml` checks all of it. No proof needs Dafny's automatic induction.

| file | what it holds |
|---|---|
| `Wrappers.dfy`, `Text.dfy` | an option type; lowercasing, stripping, filtering, splitting, joining |
| `Matching.dfy`, `SigmaForms.dfy`, `Recognition.dfy` | which questions are recognised where they are spoken |
| `Pairing.dfy`, `PairingResults.dfy`, `ReadBack.dfy`, `PairingRules.dfy`, `EvaluationAgent.dfy`, `Interview.dfy` | from the live interview to the answers it is scored on |
| `JsonExtraction.dfy` | reading the model's verdict |
| `RefreshTokens.dfy`, `TokenChains.dfy`, `TokenResults.dfy`, `TokenLog.dfy`, `TokenReplies.dfy` | refresh token rotation (section 4.14.2 of RFC 9700) |
| `SessionStore.dfy`, `Lifecycle.dfy`, `LifecycleResults.dfy`, `DeliveryResults.dfy`, `TranscriptResults.dfy`, `Retry.dfy`, `ReportTask.dfy` | sessions, transcripts and reports under interleaving |
| `Conversation.dfy`, `EndToEnd.dfy` | from the messages spoken through the stored transcript to the answers scored |
| `ActiveRecords.dfy`, `Counters.dfy`, `PrepCache.dfy`, `Preparation.dfy` | optimistic saves, counters, the preparation cache |

## How it is modelled

Code that updates state is a class or a loop whose contract ties the new state to a function of the
old one; what the code promises is proved about those functions, over all runs where several
operations or processes take part. A run is a sequence of events or actions with free choice of
order, times and outcomes. The states the results speak of are exactly those that such runs reach
from the empty store; where a lemma asks for an invariant (`TokenChains.Inv`), `TokenChains.RunKeeps`
establishes it for every such state.

These are parameters, so that results hold for every choice: the character table (letters, spaces,
case; what `Recognition.Regular` asks of it is met by the table in `Recognition.GreekIsRegular`), the
verdict of the sequence matcher, the JSON parser, the hash of the preparation cache (injective where
needed), what the model answers and all times. Calls that the code makes and that can
fail have an outcome of their own: reads and pushes of the live buffer, the agent's final write, the
sending of a report task, and within a delivery of it every look for a report, every read, the model
call, the save, the marking of the session and the message for the next attempt. The token hash is
injective and new tokens, row ids and families are new.

Steps are as coarse as the code's own commits, with these choices: a token operation, ending a
session and each transcript sync are one step; starting a session is two (check, insert); a delivery
of the report task takes a step for the check, each read of the turns, the evaluation and the save;
reconciliation finds and acts in separate steps; saving an active record deactivates and commits in
separate steps; preparing an interview looks into the cache and writes to it in separate steps.

## What came out differently from what the code or its comments say

- A question is *not* always recognised inside a turn that contains it verbatim. `str.lower` gives a
  capital sigma its final form at the end of a word, so a question that ends in one need not be
  found when the turn continues with a letter (`Matching.FinalSigmaDefeatsVerbatimSpeech`). Lowercasing
  keeps a question as it is in all surroundings exactly when its own text settles the form of each of
  its capital sigmas (`SigmaForms.StableEverywhereIff`). A question is recognised in every turn that
  contains it, whatever the similarity measure says, exactly when this is so or at least half of its
  words stand between two spaces (`Recognition.RecognisedEverywhereIff`).
- When an interview ends early, the last question asked can lose the end of its answer: a question
  that never came up claims the agent's next turn, and what the candidate says behind it counts as the
  answer to that question (`ReadBack.UnaskedCanClaim`). The answer is whole exactly when the candidate
  says nothing behind that turn (`ReadBack.LastAnswerIsWholeIff`, `Interview.HeldInterviewRoundTrip`).
- A delivery of the report task can end with neither a report nor a failed session. The first look for
  a report stands outside every handler, and the second one, the marking of the session and the message
  for the next attempt stand inside handlers that nothing guards; a database that is down while the last
  attempt saves is also down for the marking (`DeliveryResults.OutageLeavesNothing`). A delivery ends
  that way exactly when one of these calls fails (`DeliveryResults.CrashedIff`, `EndsWellIff`), and
  reconciliation then still finds a completed session, which can still get its report
  (`DeliveryResults.CrashLeavesItDue`, `NoDeadEnd`).
- The live buffer is filled by pushes that nobody waits for or repeats. A push that fails leaves a turn
  out, and the buffer is then no longer the beginning of the conversation, exactly when a later turn
  does reach it (`TranscriptResults.BufferIsPrefixIff`, `BufferCanHaveAGap`). If such a buffer has
  been stored, the agent's final write does not extend it but replaces it
  (`TranscriptResults.LeavingCanRewrite`); it extends what is stored exactly when no turn was left out
  before a stored one (`LeavingExtendsIff`).
- `reconcile_missing_transcripts` looks for sessions without a transcript first and writes the live
  buffer later. If the agent's final write falls in between, the write replaces it, and a shorter
  buffer loses turns: `TranscriptResults.RecoveryCanLoseTurns`. It extends what is stored exactly when
  the buffer is empty or no shorter, so always until the agent has left; reading the transcript and
  ending the session always do (`TranscriptResults.WritesExtend`).
- The comment on `save_as_active_record` says that the retry succeeds cleanly. It does against one
  competitor; a second competitor can overtake the retry as well (`ActiveRecords.RetryCanRaise`).
  An attempt fails exactly when a competitor has committed since it began.
- The module comment of `gemini_retry.py` says that no 4xx is retried; the code, and the function's
  own comment, retry 429. The model follows the code.
- `_fingerprint` joins its fields with a separator that may occur in them. Inputs are told apart
  from all others exactly when no stripped field contains a separator without a space beside it
  (`PrepCache.TextTellsIff`). Its comment also calls the key the exact inputs of the two agents,
  but the candidate's name is given to one of them and is no part of the key: two candidates with the
  same inputs share an answer (`Preparation.NameIsNotInTheKey`), and a hit is made for the caller
  exactly when the answer last written to its text was made for the caller's name.
- A forced preparation overwrites the cache, but not for good: a call that began before it and is
  answered later writes its own answer over the new one (`Preparation.OverlapCanOverwrite`).

## Model

| member | source | states |
|---|---|---|
| Text.LowerInPlace | app/ai_evaluator/evaluation_agent.py:198-199 | lowercasing a text lowercases a part of it in place if and only if no capital sigma of the part changes form there |
| Matching.CleaningKeepsContainment | app/ai_evaluator/evaluation_agent.py:198-211 | filtering and stripping preserve containment of any text that stays non-empty |
| Matching.VerbatimSpeechMatches | app/ai_evaluator/evaluation_agent.py:198-211 | a turn that contains the question verbatim matches it, for all strings with a non-empty cleaned question and stable sigmas, whatever the similarity measure says |
| Matching.VerbatimSpeechWithoutSigmaMatches | app/ai_evaluator/evaluation_agent.py:198-211 | the same with no condition on the surroundings when the question has no capital sigma |
| Matching.FinalSigmaDefeatsVerbatimSpeech | app/ai_evaluator/evaluation_agent.py:198-223 | a concrete question that is contained in a turn and not recognised there |
| SigmaForms.StableEverywhereIff | app/ai_evaluator/evaluation_agent.py:198-199 | a question keeps the form of its capital sigmas in all surroundings if and only if its own text settles each of them; a condition on the question alone |
| SigmaForms.SettledQuestionMatches | app/ai_evaluator/evaluation_agent.py:198-211 | such a question matches every turn that contains it verbatim |
| Recognition.ShelteredHalfMatches | app/ai_evaluator/evaluation_agent.py:213-219 | a question half of whose words stand between two spaces matches every turn that contains it verbatim, whatever its sigmas do |
| Recognition.UnsettledCanBeMissed | app/ai_evaluator/evaluation_agent.py:198-223 | any other question with an unsettled sigma is missed, without the similarity measure, where letters stand next to it |
| Recognition.RecognisedEverywhereIff | app/ai_evaluator/evaluation_agent.py:198-223 | a question is recognised in every turn that contains it verbatim, whatever the similarity measure says, if and only if its sigmas are settled or half of its words stand between two spaces |
| Recognition.WordsAre | app/ai_evaluator/evaluation_agent.py:214-215 | the words compared are the stretches without space, bounded by spaces or the ends of the text |
| Recognition.PartOfTheQuestionMatches | app/ai_evaluator/evaluation_agent.py:210-211 | a turn that is a verbatim part of the question matches it, unless one of its sigmas changes form |
| Recognition.SharedWordsMatch | app/ai_evaluator/evaluation_agent.py:213-223 | a turn matches if it shares half of the question's words, and if the similarity measure says so |
| Recognition.MatchesForAReason | app/ai_evaluator/evaluation_agent.py:202-223 | nothing else makes a match, and a text with nothing left after cleaning matches nothing |
| Recognition.PunctuationIsIgnored | app/ai_evaluator/evaluation_agent.py:198-199 | characters that are neither word characters nor spaces make no difference |
| Pairing.FirstPassAsks | app/ai_evaluator/evaluation_agent.py:244-256 | the greedy pass pairs a question only with an agent turn that matches it |
| Pairing.FirstPassMonotone | app/ai_evaluator/evaluation_agent.py:241-256 | the greedy pass puts later questions on later turns |
| Pairing.SecondPassInjective | app/ai_evaluator/evaluation_agent.py:258-274 | the fallback pass keeps every pair it is given and never puts two questions on one turn |
| Pairing.PositionsAreDistinctAgentTurns | app/ai_evaluator/evaluation_agent.py:241-274 | across both passes paired questions sit on distinct agent turns |
| Pairing.OrderIsPlaced | app/ai_evaluator/evaluation_agent.py:276 | the sorted list of paired questions has strictly increasing positions |
| PairingResults.AnswersConserveSpeech | app/ai_evaluator/evaluation_agent.py:276-287 | one answer for each paired question; neighbouring windows are separated by the matched turn only, and together they are exactly what the candidate said after the earliest matched turn, once and in order |
| PairingResults.UnpairedOnlyWhenNothingLeft | app/ai_evaluator/evaluation_agent.py:258-274 | a question ends unpaired only if every agent turn after its nearest paired predecessor is claimed by another question |
| PairingResults.NothingPairedIffAgentSilent | app/ai_evaluator/evaluation_agent.py:258-288 | with at least one question, nothing is paired if and only if the log has no agent turn |
| PairingResults.WholeLogWhenAgentSilent | app/ai_evaluator/evaluation_agent.py:288-295 | then question 0 gets all the candidate said and the others the empty answer |
| PairingResults.FallbackCanReverseTheOrder | app/ai_evaluator/evaluation_agent.py:258-276 | a log in which the fallback pass puts question 0 behind question 1, so that the positions have to be sorted |
| PairingResults.EachQuestionGetsItsOwnAnswer | app/ai_evaluator/evaluation_agent.py:126-130 | the join looks up, for each question, the speech from its own turn to the next claimed one, whatever the order of the answers |
| ReadBack.AskedInOrderIsRecovered | app/ai_evaluator/evaluation_agent.py:241-274 | questions asked at increasing turns, with no earlier match since the previous one, are paired with exactly those turns |
| ReadBack.AskedPrefixIsRecovered | app/ai_evaluator/evaluation_agent.py:241-274 | in an interview that ends early the questions asked are paired with their own turns, and every other paired question with a turn behind all of these |
| ReadBack.AskedInOrderRoundTrip | app/ai_evaluator/evaluation_agent.py:241-287 | each question asked, whether or not all were, gets exactly the speech between its turn and that of the next one asked; the last one all the rest if no question is left, and otherwise what is said up to the first turn that a question never asked claims |
| ReadBack.NextClaimedIsTaken | app/ai_evaluator/evaluation_agent.py:241-274 | that turn is the first one behind the last question asked that matches the next question or, failing that, the agent's next turn |
| ReadBack.LastAnswerIsWholeIff | app/ai_evaluator/evaluation_agent.py:241-287 | when a question never came up and nothing the candidate says is blank, the last one asked gets all that is said after it if and only if the candidate says nothing behind that turn; if the next question matches nothing, if and only if the candidate says nothing more once the agent has spoken again |
| ReadBack.UnaskedCanClaim | app/ai_evaluator/evaluation_agent.py:258-287 | a log in which a question never asked takes the second half of the answer before it |
| PairingRules.GreedyPassObeys | app/ai_evaluator/evaluation_agent.py:241-256 | for every log and whichever questions are missed: a question is paired by the greedy pass if and only if an agent turn behind the turns of all earlier pairs asks it, and then with the first such turn |
| PairingRules.GreedyIsUnique | app/ai_evaluator/evaluation_agent.py:241-256 | only one pairing obeys this rule |
| PairingRules.FallbackPassObeys | app/ai_evaluator/evaluation_agent.py:258-274 | the fallback pass keeps these pairs; another question is paired if and only if some agent turn behind its nearest paired predecessor is given neither to a recognised nor to an earlier question, and then with the first such turn |
| PairingRules.RulesGiveThePairing | app/ai_evaluator/evaluation_agent.py:241-274 | the two rules determine the whole pairing |
| PairingRules.AnswersFollowTheRules | app/ai_evaluator/evaluation_agent.py:276-287 | every question paired by the rules, the recognised ones with their own turns among them, is answered by what is said from its turn to the next turn paired, and any other by nothing |
| PairingRules.AnswersEnd | app/ai_evaluator/evaluation_agent.py:279-282 | every answer has such an end |
| PairingRules.MissedQuestionIsPassedOver | app/ai_evaluator/evaluation_agent.py:241-274 | a log in which a question that never comes up stands between two that do, and these keep their turns |
| PairingRules.TextsTurnByTurn | app/ai_evaluator/evaluation_agent.py:283-286 | an answer is made of the candidate's turns that say anything, each once and in order |
| PairingRules.RepliesAreJoined | app/ai_evaluator/evaluation_agent.py:286-287 | replies without outer space are put together as they are, with one blank between neighbours |
| PairingRules.AnswerIsTrimmed | app/ai_evaluator/evaluation_agent.py:286-287 | space is taken off both ends of an answer and nothing else |
| EvaluationAgent.FindQuestion | app/ai_evaluator/evaluation_agent.py:249-256 | the inner loop finds the first matching agent turn at or after the cursor |
| EvaluationAgent.GreedyPass | app/ai_evaluator/evaluation_agent.py:241-256 | the loop over the questions computes the first pass, skipping blank questions |
| EvaluationAgent.FallbackPass | app/ai_evaluator/evaluation_agent.py:258-274 | the loop over the list of agent turns computes the second pass |
| EvaluationAgent.CollectAnswers | app/ai_evaluator/evaluation_agent.py:279-287 | the loop over the sorted questions computes the answer windows |
| EvaluationAgent.PairQuestionsAndAnswers | app/ai_evaluator/evaluation_agent.py:226-297 | the whole reconstruction, both passes, sort, windows and the branch for a silent agent |
| EvaluationAgent.JoinAnswers | app/ai_evaluator/evaluation_agent.py:126-135 | each entry carries the first answer recorded for its question, or the empty string |
| EvaluationAgent.ScoringInput | app/ai_evaluator/evaluation_agent.py:126-135 | from log to prompt every question is scored on its own answer, stated without reference to the sort |
| Interview.InterviewerAgent.GetNextQuestion | app/interviews/agents/voice_agent.py:93-113 | questions are served verbatim, one by one, in order, then only the closing message |
| Interview.RecognisedRoundTrip | app/ai_evaluator/evaluation_agent.py:226-297 | if the questions asked, all or the first ones, are recognised where they were spoken and not before, each is scored on exactly the replies that count; these are the whole answer if nothing is said behind them, and with no blank speech only then |
| Interview.UndisturbedIff | app/ai_evaluator/evaluation_agent.py:241-287 | when the next question is not matched among the replies, this means that the candidate says nothing more once the agent has spoken again |
| Interview.PlainQuestionIsRecognisable | app/ai_evaluator/evaluation_agent.py:198-211 | a question without capital sigma and with a non-empty cleaned text is recognised in every utterance that contains it |
| Interview.HeldInterviewRoundTrip | app/ai_evaluator/evaluation_agent.py:226-297 | round trip from the live interview: the prepared questions, spoken verbatim and in order as far as the interview gets, are each scored on exactly the replies that count, and on all replies if and only if nothing is said behind these |
| Interview.ScoredByTheRules | app/ai_evaluator/evaluation_agent.py:226-297 | a prepared question taken to be asked behind the turns of all earlier ones recognised keeps the first such turn, and every question is scored on what is said from its own turn to the next one paired, whichever questions were missed |
| JsonExtraction.PlainJsonIsItsOwnParse | app/ai_evaluator/evaluation_agent.py:171-173 | a non-empty text the parser accepts comes out as its own parse, whatever braces or fences it holds |
| JsonExtraction.NothingComesOutIff | app/ai_evaluator/evaluation_agent.py:166-195 | nothing comes out if and only if the text is empty or the parser rejects it, what its fence holds if it has one, and the stretch between its outer braces if there is one; otherwise the parse of the first of these that it accepts |
| JsonExtraction.UnfencedIsHeld | app/ai_evaluator/evaluation_agent.py:176-182 | a text has a fence if and only if it starts with one after space, and what is read is what the fence holds |
| JsonExtraction.BracedIsOuter | app/ai_evaluator/evaluation_agent.py:188 | the stretch between the outer braces runs from the first '{' to the last '}' |
| JsonExtraction.FencedObjectIsParsed | app/ai_evaluator/evaluation_agent.py:166-185 | an object in a code fence, with or without the json tag in any case and any space inside and around, comes out as its parse when the direct parse fails |
| JsonExtraction.BracedFindsIff | app/ai_evaluator/evaluation_agent.py:188 | the brace search finds exactly the object if and only if no '{' precedes it and no '}' follows it |
| JsonExtraction.ObjectInProseIsParsed | app/ai_evaluator/evaluation_agent.py:187-195 | an object in such prose comes out as its parse when the earlier stages fail |
| RefreshTokens.TokenService.RevokeFamily | app/auth/services/token_service.py:70-80 | the loop revokes exactly the active rows of the family |
| RefreshTokens.TokenService.RevokeFamilyByToken | app/auth/services/token_service.py:83-96 | logout does the same to the family of the token, and nothing for an unknown one |
| TokenChains.ReachableStatesAreChained | app/auth/services/token_service.py:53-65 | in every reachable state the rows of a family form one repetition-free chain that begins with the token minted at login, only the last can be active, `revoked_at` is set exactly on revoked rows, and a cache entry names the row that replaced its token |
| TokenChains.CleanedAsAWhole | app/workers/tasks.py:261-270 | clean-up removes a family entirely or not at all |
| TokenChains.CleanedLeavesNoDangling | app/workers/tasks.py:261-270 | a surviving row is unchanged and its `replaced_by_id` refers to a surviving row |
| TokenChains.CleanedRows | app/workers/tasks.py:261-270 | clean-up keeps exactly the unexpired rows, each as it was |
| TokenChains.StepKeeps | app/auth/services/token_service.py:44-215 | every login, refresh, logout and clean-up keeps the chain invariant |
| TokenChains.RunKeeps | app/auth/services/token_service.py:44-215 | so does every run |
| TokenResults.RevokedRowsAreFrozen | app/auth/services/token_service.py:70-96 | a revoked row keeps its revocation time and successor as long as it exists |
| TokenResults.LogoutKills | app/auth/services/token_service.py:83-96 | logout revokes exactly the active rows of the family, now, and leaves it without one |
| TokenResults.ReuseKills | app/auth/services/token_service.py:166-173 | so does reuse handling of the family of the token presented |
| TokenResults.DeadFamiliesStayDead | app/auth/services/token_service.py:83-105 | a family without an active row never gets one, in any later run |
| TokenResults.FamiliesNeverRevive | app/auth/services/token_service.py:44-215 | both of these over every run from the empty store |
| TokenResults.DeadFamilyIsRefused | app/auth/services/token_service.py:142-173 | at and after the grace period following the last rotation of a dead family no presentation is granted a token of it, in any run |
| TokenResults.NoTokenOutlivesTheCap | app/auth/services/token_service.py:136-140 | every token issued or reissued for a family carries the expiry fixed at its start, and none is issued after it |
| TokenResults.PresentingARevokedToken | app/auth/services/token_service.py:142-173 | a revoked token is granted if and only if a live cache entry can be read; then it names the successor and nothing changes, otherwise the family is dead |
| TokenResults.GracePeriodIsIdempotent | app/auth/services/token_service.py:142-164 | after a rotation and any further events, presenting the old token within the grace period returns the identical token and changes nothing |
| TokenResults.CleanupIsUnobservable | app/workers/tasks.py:261-275 | over all runs, every reply is the same as in a system that never cleans up, up to the code of a rejection |
| TokenReplies.RefreshIsAnsweredAsDue | app/auth/services/token_service.py:118-215 | over every run from the empty store, told from the requests and replies alone: a token presented is granted if and only if it is the last of its family, with no logout or detected reuse since and its cap not reached, or it was exchanged less than five seconds ago and the cache took note and can be read; in the first case the grant is the fresh token with the user and family of the login and the expiry fixed then, 30 days later, in the second the token given then; a rejection says invalid, expired or reused exactly as due |
| TokenReplies.ExchangeLeavesOneActive | app/auth/services/token_service.py:175-196 | after a good token has been exchanged, its family has exactly one active row, that of the fresh token |
| SessionStore.ConversionTimeIrrelevant | app/interviews/services/transcript_service.py:23-43 | a history gives the same turns whenever it is converted if and only if each message is no turn or carries its time |
| Conversation.TurnsMessageByMessage | app/interviews/services/transcript_service.py:20-43 | message by message: one of the user that is not blank is logged as a turn of the candidate, one of the assistant as a turn of the agent, with its stripped text and its own time or else the current one, and nothing else is logged |
| Conversation.SpeakersAreRoles | app/interviews/services/transcript_service.py:20-43 | the candidate's turns are exactly the user's messages and the agent's exactly the assistant's, in order |
| Conversation.SpokenIsWhatTheUserWrote | app/ai_evaluator/evaluation_agent.py:283-287 | what the candidate says in a stretch of the conversation is the user's messages, stripped, with one blank between neighbours |
| SessionStore.RoomNamesDiffer | app/interviews/services/session_service.py:90-93 | different sessions have different room names |
| SessionStore.InterviewStore.FailStaleSessions | app/workers/tasks.py:239-252 | fails exactly the sessions in progress since before the cutoff, and counts them |
| LifecycleResults.InsertKeepsSessions | app/interviews/services/session_service.py:116-140 | an insert succeeds if and only if the user has no session in progress, keeps that unique, and stores a session of this user in progress since now, leaving all others alone |
| LifecycleResults.TimeOutFails | app/workers/tasks.py:239-252 | exactly the sessions in progress since before the cutoff fail, for inactivity, and nothing else changes |
| LifecycleResults.SessionsChange | app/interviews/services/session_service.py:116-140 | what every action does to the sessions: an insert starts one for the user checked, now, unless they have one in progress; ending completes one, the time-out fails the stale ones, a report task may fail its own, and nothing else touches them |
| LifecycleResults.EndIsForTheOwner | app/interviews/api/sessions.py:171-190 | a session is ended if and only if its owner asks for it while it is in progress, and is then completed; otherwise nothing changes and the refusal says why |
| LifecycleResults.DeliveriesBegin | app/workers/tasks.py:157-178 | ending with a task sent, reconciliation, a request and a redelivery each start a delivery of their session, and nothing else does |
| LifecycleResults.SessionStateMachine | app/interviews/services/session_service.py:38-51 | over every interleaving no user has two sessions in progress, no two sessions share a room, and an ended session never returns to progress |
| LifecycleResults.TimeOutUnblocks | app/workers/tasks.py:232-252 | after the time-out a user can start a session if and only if none of their sessions in progress started at or after the cutoff |
| LifecycleResults.EndsOnceByItsOwner | app/interviews/api/sessions.py:171-185 | a session is ended by its owner only, and after that, in any later state, ending it is refused and changes nothing |
| LifecycleResults.DuplicateDeliveriesAreSafe | app/workers/tasks.py:84-151 | over every interleaving of any deliveries a session has at most one report, a stored report never changes, and no report, delivery or due reconciliation concerns a session in progress |
| DeliveryResults.ReportedCostsNothing | app/workers/tasks.py:88-92 | a delivery that starts when the session has its report makes no model call, in any run |
| DeliveryResults.EndsWellIff | app/workers/tasks.py:84-151 | the step that finishes a delivery leaves a report or a failed session, where there was neither, if and only if none of the calls outside its handlers fails |
| DeliveryResults.CrashedIff | app/workers/tasks.py:84-151 | over all runs a delivery is recorded as crashed if and only if one of its steps has crashed |
| DeliveryResults.OutageLeavesNothing | app/workers/tasks.py:145-150 | a run in which the database is down for the last save and the marking, and a completed session is left without a report |
| DeliveryResults.CrashLeavesItDue | app/workers/tasks.py:157-178 | a crash changes no table, and reconciliation still finds a completed session without a report and starts a new delivery |
| DeliveryResults.NoDeadEnd | app/workers/tasks.py:84-178 | from every state whatever a completed session without a report can still get one, by reconciliation and one delivery alone, with no other change to the tables |
| DeliveryResults.SpentWithinBudget | app/interviews/agents/gemini_retry.py:28-44 | what one attempt adds to the calls and the sleep of a delivery, from the outcomes of its model calls |
| DeliveryResults.DeliveriesEnd | app/workers/tasks.py:28-151 | every delivery ends after at most 39 steps and four attempts, with a report or a failed session unless it crashed; it makes at most 12 model calls, sleeps at most 12 seconds between them, and its countdowns lie within 10(2^k - 1) and 10(2^k - 1) + 3k for the k retries taken |
| TranscriptResults.TranscriptsAreSafe | app/interviews/api/sessions.py:187-203 | over every interleaving the stored transcript, the live buffer and what a delivery scores are turns of the conversation in their order, and its first turns as long as no turn was dropped before one that reached the buffer |
| TranscriptResults.BufferIsPrefixIff | app/interviews/workers/livekit_agent.py:216-224 | with all turns different the buffer holds first turns of the conversation if and only if no turn was dropped before one that reached it |
| TranscriptResults.BufferCanHaveAGap | app/interviews/workers/livekit_agent.py:216-224 | a run in which the push of the first turn fails and the buffer holds the second alone |
| TranscriptResults.WritesExtend | app/workers/tasks.py:207-212 | every action but the leaving of the session's own agent extends the stored transcript, with or without gaps, except reconciliation, which does if and only if the buffer is empty or no shorter, and always until the agent has left |
| TranscriptResults.ActionsStore | app/interviews/api/sessions.py:187-203 | what every action leaves stored: reading and ending by the owner take the buffer over if nothing is stored yet, leaving the conversation or else the buffer, reconciliation the buffer, each unless it is empty or cannot be reached |
| TranscriptResults.OnlyTheOwnerReads | app/interviews/api/sessions.py:318-365 | in every run only the owner is handed a transcript: what is stored or else in the buffer, or that it is not ready yet |
| TranscriptResults.LeavingExtendsIff | app/interviews/agents/voice_agent.py:152-174 | leaving extends it if the agent does not write its history or no turn was dropped before a stored one; with all turns different only then |
| TranscriptResults.LeavingCanRewrite | app/interviews/agents/voice_agent.py:152-174 | a run in which the API stores a buffer with a gap and the agent's write replaces it by the whole conversation, which does not extend it |
| TranscriptResults.RecoveryCanLoseTurns | app/workers/tasks.py:196-218 | a run in which reconciliation replaces a complete transcript by a shorter one |
| TranscriptResults.LeavingStoresTheConversation | app/interviews/agents/voice_agent.py:152-174 | an agent that leaves with its history stores the whole conversation, which stays stored unless reconciliation touches the session |
| EndToEnd.LateDeliveriesScoreEverything | app/ai_evaluator/evaluation_agent.py:323-351 | once the agent has stored its history, every delivery that begins later scores the whole conversation unless reconciliation touches the session |
| EndToEnd.InterviewIsScoredAsHeld | app/ai_evaluator/evaluation_agent.py:300-358 | end to end, from messages to answers: the assistant's messages ask the prepared questions as intended; then every such delivery scores each of them on exactly the replies that count, and on all the user wrote in reply if and only if nothing is said behind these |
| ReportTask.LoadTurns | app/ai_evaluator/evaluation_agent.py:323-351 | the loop returns what the first read that finds turns finds, or nothing |
| ReportTask.LoadingRefines | app/ai_evaluator/evaluation_agent.py:323-351 | the loop and the reading steps of the transition system agree, whatever others write between reads |
| ReportTask.AttemptEndsIn | app/workers/tasks.py:84-151 | what an uninterrupted attempt leaves behind in each case, unanswered calls included |
| ReportTask.Attempt | app/workers/tasks.py:84-151 | the code of an attempt, its model calls made by `call_with_retry`, takes exactly the steps of the transition system |
| ActiveRecords.CommitIsAdmittedIff | app/candidates/models.py:12-19 | the partial unique index admits a commit if and only if every active row of the user was seen when deactivating |
| ActiveRecords.RefusedIffOvertaken | app/candidates/services/candidate_service.py:42-54 | in every reachable state a commit fails, leaving the table as it was, if and only if a competing commit has happened since the attempt began; otherwise its row is the only active one |
| ActiveRecords.SavesAreSafe | app/candidates/services/candidate_service.py:31-54 | with any number of savers no user ever has two active rows, and a call that raises was overtaken by two different savers that returned |
| ActiveRecords.RowsKeepTheirContent | app/candidates/services/candidate_service.py:25-54 | over every run no row is dropped, its user and content never change, and it only ever ceases to be active |
| ActiveRecords.SavedAsGiven | app/candidates/services/candidate_service.py:42-54 | a saver that has returned has made a commit as its last action, and its row has the saver's user and the content of that commit |
| ActiveRecords.RetryCanRaise | app/candidates/services/candidate_service.py:38-41 | three savers suffice for a call to raise |
| ActiveRecords.ActiveTable.SaveAsActive | app/candidates/services/candidate_service.py:31-54 | the loop raises if and only if both attempts are overtaken; a row saved is the one built, active, with its user and content, and every older row keeps user and content |
| Counters.CounterIsLongestRun | app/core/redis_service.py:22-32 | over every history of all keys a counter equals the length of the longest trailing run of increments with gaps below the time to live |
| Counters.EnforceRateLimit | app/core/rate_limiter.py:22-46 | refuses above the maximum and lets everything through uncounted while Redis is down |
| Counters.RateKeysDiffer | app/core/rate_limiter.py:24-25 | no two actions or clients share a counter |
| Counters.RefusedIff | app/core/rate_limiter.py:29-44 | a request is refused if and only if it ends a run of more than the maximum |
| Counters.WindowAdmitsAtMostMax | app/core/rate_limiter.py:29-44 | a reset-free stretch shorter than the window admits at most the maximum |
| Counters.StaysRefused | app/core/rate_limiter.py:29-44 | a refused client stays refused while it pauses less than the window and is not reset |
| Counters.PauseOrResetReopens | app/core/rate_limiter.py:29-44 | after such a pause or a reset the next request is admitted |
| Counters.AlertsFireIff | app/interviews/api/analytics_ws.py:20-60 | with many sessions interleaved, a frame raises an alert if and only if it ends a run of that many bad frames of its session with gaps below a minute |
| Retry.CallWithRetry | app/interviews/agents/gemini_retry.py:22-46 | calls until the first outcome that is not transient or until the budget is spent, delivers the last outcome, and sleeps in linearly growing steps; a negative budget makes no call |
| Retry.CallsMadeOnce | app/interviews/agents/gemini_retry.py:28-38 | the outcomes and the budget determine the number of calls |
| Retry.RetriedExactlyAfter | app/interviews/agents/gemini_retry.py:28-44 | a call is made again exactly after a server error or one of the codes 429 and 503, as long as there are retries left |
| Retry.RetryBudget | app/interviews/agents/gemini_retry.py:28-44 | with m retries at most m + 1 calls, and at most base·m(m + 1)/2 of sleep |
| PrepCache.UnambiguousTextTells | app/interviews/services/interview_pipeline.py:46-55 | inputs without a bare separator share the hashed text only with inputs equal up to surrounding space |
| PrepCache.AmbiguousTextMisleads | app/interviews/services/interview_pipeline.py:54 | inputs with one share it with different inputs |
| PrepCache.TextTellsIff | app/interviews/services/interview_pipeline.py:46-55 | both together, as an equivalence |
| Preparation.CacheHoldsLastAnswer | app/interviews/services/interview_pipeline.py:110-136 | however calls overlap the cache holds for each text the answer last written to it, good for a day, and nothing else |
| Preparation.HitsAreSound | app/interviews/services/interview_pipeline.py:110-136 | over every interleaving a call is served from the cache if and only if it is not forced and an answer to its text was last written less than a day ago, and gets that answer, which an earlier call had asked for with the same text, so on unambiguous text with the same stripped inputs |
| Preparation.HitIsForTheCallerIff | app/interviews/services/interview_pipeline.py:110-127 | a hit is made for the same stripped inputs and the same name if and only if the answer last written to that text was made for that name |
| Preparation.OneNameIsSafe | app/interviews/services/interview_pipeline.py:110-136 | as long as every call of a text carries one name, every hit of it is made for the caller |
| Preparation.NameIsNotInTheKey | app/interviews/services/interview_pipeline.py:110-127 | a run in which the second of two candidates with different names is served what was made for the first |
| Preparation.OverlapCanOverwrite | app/interviews/services/interview_pipeline.py:114-136 | a run in which a call that began before a forced one is answered after it, and its answer replaces the new one |

## Left out

- Matching.VerbatimSpeechMatches: one direction for the surroundings at hand; the exact condition over all surroundings is `Recognition.RecognisedEverywhereIff`.
- JsonExtraction.FencedObjectIsParsed: the parser is a parameter, so that it rejects the fence itself has to be asked for.
- TranscriptResults.TranscriptsAreSafe: asks that spoken messages carry their time (SessionStore.ConversionTimeIrrelevant says why), that pushes which succeed arrive in order, and that the live buffer does not expire during the interview.
- DeliveryResults.DeliveriesEnd: bounds deliveries that keep running; a worker that is lost takes no more steps, and a redelivered message is a delivery of its own. A save whose commit succeeds although its answer is lost is not modelled.
- Counters.CounterIsLongestRun: Redis is up; expiry is immediate.
- ActiveRecords.SavesAreSafe: database errors other than the unique index are not modelled; row locks, which only rule out interleavings, are not either.
- The cutoffs on `updated_at` in the reconciliation jobs: reconciliation may find a session at any time.
- Separate commits inside `end_session`, and `_mark_session_failed` apart from the step that fails: each is one step.
- IP addresses, user agents, the security alert e-mail and log lines.
- The counters `recovered` and `unrecoverable`: returned one session at a time. The methods that only carry out one of the functions above have no row of their own.
- SHA-256, JSON encoding and decoding, regular expression engines and the sequence matcher: parameters, or their effect on the strings at hand.
- `asyncio`, Celery, LiveKit, Gemini, Redis and PostgreSQL themselves beyond the steps named above.
- The readiness checks on CV, job description, approval and attempts, the frame rate cap and the periodic re-check of the analytics socket, upload and parsing of CVs, authentication other than refresh tokens, prompts, and response schemas: single checks without a property across calls.
