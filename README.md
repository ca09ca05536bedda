# EduTrackr schedule builder, modelled in Dafny

EduTrackr is a course-planning backend for Chapman University students. It
loads the class catalog, works out which degree requirements a student still
needs from a parsed program evaluation, marks each class section with the
requirements it meets, picks candidate classes for a schedule, repairs the
class list a completion oracle sends back, and validates the result against
time conflicts and credit load. Schedules are saved as named snapshots per
user. Around that pipeline sit small helpers: onboarding progress in the chat,
the onboarding answers' lookup tables, a line-oriented parser for
program-evaluation text, and the decoder for obfuscated Coursicle responses.

This project models that core, one Dafny module per source file:

- `ScheduleTypes` — days, half-open time slots and their overlap rule, class sections (a class whose
  badge list the matcher rewrites in place), requirements, badges and colours.
- `ClassesService` — parsing a catalog row (time slots, days, credits, class code, id), the memoised
  de-duplicating catalog, lookups, search with offset/limit paging, the subject list and schedule validation.
- `DegreeRequirementsMatcher` — requirement extraction from four sources, course-code normalisation,
  short labels, the general-education test, the `elif` chain of `match_class_to_requirements`, both
  enrichment passes and the requirement summary.
- `MsEecsRequirements` — the M.S. EECS curriculum table: the memoised load, the program test, valid codes,
  the six categories and the two prompt texts.
- `ScheduleGenerator` — required subjects and codes, level and placeholder tests, the program mapping,
  the requirement filter, the top-5 grouping, the oracle-id whitelist, the greedy conflict remover and
  the error results.
- `ScheduleSnapshotService` — the `schedule_snapshots` table as an in-memory class
  (`SnapshotTable`) and the six service operations with their reply handling.
- `ChatService`, `ChatCatalog`, `DegreeStatus` — first names, onboarding progress, next topic and summary;
  program-name normalisation, catalog choice and program matching; transcript codes and per-section
  degree status.
- `OnboardingPreferences` — the credit, time and priority tables, their reverses, the preference payload
  and the sign-up checks.
- `PdfParser`, `CourseLine` — the evaluation-text parser and the character-level matchers for its
  regular expressions.
- `CoursicleDecoder` — the punctuation substitution, the three shift passes, padding and decoding.
- `Text` and `Wrappers` — string primitives with Python's semantics, and Option/Result.

Loops of the source are methods with loop invariants. Each is proved equal to a specification function,
and the promised properties are proved as lemmas about that function. Objects that the source updates in
place are classes with `modifies` frames: the class sections, the catalog cache and the snapshot table.

## Model

| member | source | states |
|---|---|---|
| ScheduleTypes.DayIndex | backend/app/models/schedule_types.py:10-18 | every day has a position in the weekly order M, Tu, W, Th, F, Sa, Su |
| ScheduleTypes.DayFromName | backend/app/models/schedule_types.py:10-18 | parsing an enum value yields a day whose value is that string |
| ScheduleTypes.DayNameRoundTrip | backend/app/models/schedule_types.py:10-18 | a day's enum value parses back to the same day |
| ScheduleTypes.RequirementColorInjective | backend/app/models/schedule_types.py:232-239 | no two requirement types share a badge colour |
| ScheduleTypes.OverlapsSymmetric | backend/app/models/schedule_types.py:37-39 | slot overlap does not depend on which slot asks |
| ScheduleTypes.BackToBackNoOverlap | backend/app/models/schedule_types.py:37-39 | a slot ending when the other starts overlaps it in neither direction |
| ScheduleTypes.SlotDicts | backend/app/models/schedule_types.py:41-42 | one `startTime`/`endTime` dictionary per slot, in order |
| ScheduleTypes.DaysWithSlotsExact | backend/app/models/schedule_types.py:67-78 | filtering days keeps exactly those with slots and keeps weekly order |
| ScheduleTypes.AllDaysInOrder | backend/app/models/schedule_types.py:10-18 | the week lists every day, in weekly order |
| ScheduleTypes.ActiveDays | backend/app/models/schedule_types.py:67-78 | a day is active iff it has a slot; the list is in weekly order |
| ScheduleTypes.ClassSection.constructor | backend/app/models/schedule_types.py:96-116 | a new section carries its data and no requirement badges |
| ScheduleTypes.ConflictsSymmetric | backend/app/models/schedule_types.py:138-153 | two sections conflict regardless of which one asks |
| ScheduleTypes.NoMeetingsNoConflict | backend/app/models/schedule_types.py:138-153 | a section without meetings conflicts with nothing |
| ScheduleTypes.ProperMeetingSelfConflict | backend/app/models/schedule_types.py:138-153 | a section with a meeting of positive length conflicts with itself |
| ScheduleTypes.HasConflictWith | backend/app/models/schedule_types.py:138-153 | the day-by-day, slot-by-slot search answers true iff some slot pair on a common day overlaps |
| ScheduleTypes.Overlaps | backend/app/models/schedule_types.py:37-39 | defines the overlap of two time slots: each starts strictly before the other ends; its properties are OverlapsSymmetric and BackToBackNoOverlap |
| ScheduleTypes.Conflicts | backend/app/models/schedule_types.py:138-153 | defines a conflict between two classes as a day on which one of each class's slots overlap; its properties are ConflictsSymmetric, NoMeetingsNoConflict and ProperMeetingSelfConflict |
| MsEecsRequirements.RequirementsCache.constructor | backend/app/services/ms_eecs_requirements.py:24-25 | the memo starts empty |
| MsEecsRequirements.RequirementsCache.Load | backend/app/services/ms_eecs_requirements.py:28-55 | the first load reads the file (missing or unreadable gives the empty table) and remembers it; later loads return the remembered table unchanged |
| MsEecsRequirements.ValidCourseCodes | backend/app/services/ms_eecs_requirements.py:58-67 | the empty table has no valid codes; otherwise a code is valid iff the table lists it |
| MsEecsRequirements.ValidCodesIgnoreRepeats | backend/app/services/ms_eecs_requirements.py:58-67 | listing a code a second time does not change the set of valid codes |
| MsEecsRequirements.EmptyNameNotEecs | backend/app/services/ms_eecs_requirements.py:121-122 | the empty program name is never the EECS program |
| MsEecsRequirements.EecsIndicatorsRedundant | backend/app/services/ms_eecs_requirements.py:111-133 | the fifth indicator is implied by "eecs", so the test equals asking for one of the first four |
| MsEecsRequirements.EecsIgnoresCase | backend/app/services/ms_eecs_requirements.py:124-133 | a name and its lower-cased form get the same answer |
| MsEecsRequirements.EecsAbbreviation | backend/app/services/ms_eecs_requirements.py:124-133 | any name containing "EECS" or "eecs" is the program |
| MsEecsRequirements.CategoryKeysListed | backend/app/services/ms_eecs_requirements.py:149-156 | the six category keys are exactly the keys of the initial dictionary |
| MsEecsRequirements.Codes | backend/app/services/ms_eecs_requirements.py:160-161 | one code per course |
| MsEecsRequirements.AppendCodes | backend/app/services/ms_eecs_requirements.py:159-172 | one loop appends a list's codes to its own category and leaves the other categories alone |
| MsEecsRequirements.EmptyCategories | backend/app/services/ms_eecs_requirements.py:149-156 | the six categories, each empty |
| MsEecsRequirements.AppendAreas | backend/app/services/ms_eecs_requirements.py:168-172 | each area's codes are appended to the category named by its key; other keys add nothing |
| MsEecsRequirements.CategorizedCourses | backend/app/services/ms_eecs_requirements.py:136-180 | exactly the six categories, each holding the codes the reference definition `CategoryCodes` gives |
| MsEecsRequirements.AreaCodesAppend | backend/app/services/ms_eecs_requirements.py:168-172 | the codes filed under a key distribute over concatenated area lists |
| MsEecsRequirements.OtherAreaAddsNothing | backend/app/services/ms_eecs_requirements.py:169-170 | an area under another key adds nothing to a key, wherever it stands |
| MsEecsRequirements.OtherAreaIgnored | backend/app/services/ms_eecs_requirements.py:169-170 | an area whose key is not a category changes no category |
| MsEecsRequirements.MasteryOnlyThesis | backend/app/services/ms_eecs_requirements.py:174-178 | only the thesis track's courses reach "mastery": tables differing in other tracks categorise alike |
| MsEecsRequirements.EthicsCourseCategorised | backend/app/services/ms_eecs_requirements.py:158-161 | the i-th ethics course's code is the i-th entry of "ethics_core" |
| MsEecsRequirements.LinesOf | backend/app/services/ms_eecs_requirements.py:212-213 | one line per item |
| MsEecsRequirements.AppendArea | backend/app/services/ms_eecs_requirements.py:210-215 | one pass of the area loop appends that area's lines |
| MsEecsRequirements.AppendAreasLines | backend/app/services/ms_eecs_requirements.py:209-215 | the area loop appends every area's lines in table order |
| MsEecsRequirements.CurriculumPrompt | backend/app/services/ms_eecs_requirements.py:183-230 | the empty table gives ""; otherwise the header, the area blocks and the mastery lines joined by newlines |
| MsEecsRequirements.AreaLinesShape | backend/app/services/ms_eecs_requirements.py:210-215 | an area shows its title, its first min(5, n) courses, a "... and n-5 more courses" line only when n > 5, and a blank line |
| MsEecsRequirements.CurriculumPromptNonEmpty | backend/app/services/ms_eecs_requirements.py:195-230 | a non-empty table always gives a non-empty description |
| MsEecsRequirements.TitleFrom | backend/app/services/ms_eecs_requirements.py:250-251 | title-casing keeps the length |
| MsEecsRequirements.Title | backend/app/services/ms_eecs_requirements.py:250-251 | `str.title` keeps the length |
| MsEecsRequirements.TitleFromShape | backend/app/services/ms_eecs_requirements.py:250-251 | non-letters stay; each letter keeps its identity, upper-cased exactly when it starts a word |
| MsEecsRequirements.TitleFromIdempotent | backend/app/services/ms_eecs_requirements.py:250-251 | title-casing from any state is idempotent |
| MsEecsRequirements.TitleIdempotent | backend/app/services/ms_eecs_requirements.py:250-251 | title-casing twice equals title-casing once |
| MsEecsRequirements.DisplayName | backend/app/services/ms_eecs_requirements.py:250-251 | replacing underscores and title-casing keeps the length |
| MsEecsRequirements.OfferedCoursesPrompt | backend/app/services/ms_eecs_requirements.py:233-255 | no offered courses gives the fixed message; otherwise the two header lines and one line per course, joined by newlines |
| MsEecsRequirements.OfferedLinePosition | backend/app/services/ms_eecs_requirements.py:242-255 | the i-th offered course's line is line i + 2 |
| MsEecsRequirements.OfferedLineShape | backend/app/services/ms_eecs_requirements.py:249-253 | a line starts with "- code: " and ends with the category, or with " (Area)" when the course names an area |
| MsEecsRequirements.IsEecsProgram | backend/app/services/ms_eecs_requirements.py:111-133 | defines `is_eecs_program`: a non-empty name whose lower-cased text contains one of the indicator words; its properties are EmptyNameNotEecs and EecsIndicatorsRedundant |
| DegreeRequirementsMatcher.TrailingDigitsExact | backend/app/services/degree_requirements_matcher.py:188 | a run of digits ending the text, preceded by a non-digit, is exactly the section suffix length |
| DegreeRequirementsMatcher.NormalizeShape | backend/app/services/degree_requirements_matcher.py:182-195 | the result is capitals with a course number, or the upper-cased stripped code with an empty number |
| DegreeRequirementsMatcher.NormalizeSpaced | backend/app/services/degree_requirements_matcher.py:182-195 | "SUBJ NUM" normalizes to (SUBJ, NUM) |
| DegreeRequirementsMatcher.NormalizeSectioned | backend/app/services/degree_requirements_matcher.py:182-195 | "SUBJ NUM-SEC" normalizes to (SUBJ, NUM): the section is dropped |
| DegreeRequirementsMatcher.SectionDropped | backend/app/services/degree_requirements_matcher.py:188 | stripping keeps "BASE-SEC" whole and the substitution removes "-SEC" |
| DegreeRequirementsMatcher.NormalizeLowerJoined | backend/app/services/degree_requirements_matcher.py:182-195 | "cpsc350" normalizes to the upper-case subject and the number |
| DegreeRequirementsMatcher.NormalizeBy | backend/app/services/degree_requirements_matcher.py:188-195 | normalizing is matching the stripped, upper-cased code, else (code, "") |
| DegreeRequirementsMatcher.UpperLowerJoined | backend/app/services/degree_requirements_matcher.py:191 | upper-casing "cpsc350" gives "CPSC350" |
| DegreeRequirementsMatcher.NoSectionAfterLetters | backend/app/services/degree_requirements_matcher.py:188 | a code with no dash or underscore before its last digits is left alone by the substitution |
| DegreeRequirementsMatcher.NormalizeSpacedExample | backend/app/services/degree_requirements_matcher.py:182-195 | "CPSC 350" gives (CPSC, 350) |
| DegreeRequirementsMatcher.NormalizeLowerExample | backend/app/services/degree_requirements_matcher.py:182-195 | "cpsc350" gives (CPSC, 350) |
| DegreeRequirementsMatcher.NormalizeSectionedExample | backend/app/services/degree_requirements_matcher.py:182-195 | "CPSC 350-03" gives (CPSC, 350) |
| DegreeRequirementsMatcher.UnknownGeArea | backend/app/services/degree_requirements_matcher.py:374-392 | an area outside the table is met by no course |
| DegreeRequirementsMatcher.ListedSubject | backend/app/services/degree_requirements_matcher.py:25-54 | a joined code found in an area's course list has that area's prefix as subject |
| DegreeRequirementsMatcher.GeCourseBySubject | backend/app/services/degree_requirements_matcher.py:374-392 | a course meets an area iff its subject is one of the area's prefixes (the course lists add nothing) |
| DegreeRequirementsMatcher.GeAreaConsistent | backend/app/services/degree_requirements_matcher.py:25-54 | each area's listed courses carry the area's first prefix |
| DegreeRequirementsMatcher.GeListedCourseExample | backend/app/services/degree_requirements_matcher.py:374-392 | (ENG, 103, Written Inquiry) holds |
| DegreeRequirementsMatcher.GeSubjectExamples | backend/app/services/degree_requirements_matcher.py:374-392 | (MATH, 110, Quantitative Inquiry) and (BIOL, 101, Scientific Inquiry) hold; (CPSC, 350, Written Inquiry) does not |
| DegreeRequirementsMatcher.GeShortLabel | backend/app/services/degree_requirements_matcher.py:348-363 | every GE abbreviation starts with "GE" |
| DegreeRequirementsMatcher.ShortLabelByType | backend/app/services/degree_requirements_matcher.py:342-371 | only GE labels depend on the label text; a short label starts with "GE" iff the type is GE |
| DegreeRequirementsMatcher.ShortLabelExamples | backend/app/services/degree_requirements_matcher.py:344-347 | core gives "Core", elective gives "Elective" |
| DegreeRequirementsMatcher.WrittenShortLabel | backend/app/services/degree_requirements_matcher.py:350-351 | "Written Inquiry" gives "GE-WI" |
| DegreeRequirementsMatcher.QuantitativeShortLabel | backend/app/services/degree_requirements_matcher.py:352-353 | "Quantitative Inquiry" gives "GE-QI" |
| DegreeRequirementsMatcher.ScientificShortLabel | backend/app/services/degree_requirements_matcher.py:354-355 | "Scientific Inquiry" gives "GE-SI" |
| DegreeRequirementsMatcher.SocialShortLabel | backend/app/services/degree_requirements_matcher.py:356-357 | "Social Inquiry" gives "GE-SoI" |
| DegreeRequirementsMatcher.ValuesShortLabel | backend/app/services/degree_requirements_matcher.py:358-359 | "Values and Ethical Inquiry" gives "GE-VEI" |
| DegreeRequirementsMatcher.ValuesNotQuantitative | backend/app/services/degree_requirements_matcher.py:352 | the values label does not contain "quantitative", so the earlier branch is not taken |
| DegreeRequirementsMatcher.ArtisticShortLabel | backend/app/services/degree_requirements_matcher.py:360-361 | "Artistic Inquiry" gives "GE-AI" |
| DegreeRequirementsMatcher.GlobalShortLabel | backend/app/services/degree_requirements_matcher.py:362-363 | "Global Perspectives" gives "GE-GP" |
| DegreeRequirementsMatcher.AppendRequirements | backend/app/services/degree_requirements_matcher.py:206-247 | an append loop adds exactly the kept entries' requirements, in order, after what was there |
| DegreeRequirementsMatcher.ExtractFromRemainingCourses | backend/app/services/degree_requirements_matcher.py:198-247 | one requirement per remaining course, in order |
| DegreeRequirementsMatcher.ExtractGeRequirements | backend/app/services/degree_requirements_matcher.py:250-274 | the requirements of the still-needed GE areas, in order |
| DegreeRequirementsMatcher.ExtractUserRequirements | backend/app/services/degree_requirements_matcher.py:277-339 | the four sources concatenated in order: remaining courses, GE areas, elective credits, programs in progress |
| DegreeRequirementsMatcher.EveryCourseKept | backend/app/services/degree_requirements_matcher.py:206-247 | every remaining course yields exactly one requirement, at its own position |
| DegreeRequirementsMatcher.RemainingRequirementShape | backend/app/services/degree_requirements_matcher.py:207-245 | a non-empty label, "SUBJ NUM" when both are present, "Required Course" when neither subject nor title is, the course's credits, an upper-cased subject |
| DegreeRequirementsMatcher.TypeKeywordsRedundant | backend/app/services/degree_requirements_matcher.py:215-218 | "major core" and "major elective" never decide: core iff "core" or "required"; elective iff neither and "elective" or "technical" |
| DegreeRequirementsMatcher.UntypedCourseIsOther | backend/app/services/degree_requirements_matcher.py:210-226 | a course with neither type field is an "other" requirement |
| DegreeRequirementsMatcher.OtherNamesNoType | backend/app/services/degree_requirements_matcher.py:215-226 | the default "other" matches none of the keywords |
| DegreeRequirementsMatcher.GeRequirementNeed | backend/app/services/degree_requirements_matcher.py:259-272 | an area is kept iff needed, in progress or short of credits; the need is max(0, required - earned) |
| DegreeRequirementsMatcher.CreditElectiveShape | backend/app/services/degree_requirements_matcher.py:296-311 | only positive needs become electives, labelled "... Elective", with the leading capitals as subject |
| DegreeRequirementsMatcher.ProgramRequirementShape | backend/app/services/degree_requirements_matcher.py:315-337 | a program is kept iff in progress, as minor, concentration or other, needing required minus earned credits |
| DegreeRequirementsMatcher.UserRequirementsOrder | backend/app/services/degree_requirements_matcher.py:277-339 | the length is the sum of the four sources and the remaining courses come first, in order: no dedup |
| DegreeRequirementsMatcher.NeededGeAreaListed | backend/app/services/degree_requirements_matcher.py:266-272 | every GE area short of credits is among the requirements |
| DegreeRequirementsMatcher.BadgesOf | backend/app/services/degree_requirements_matcher.py:537-541 | one badge per requirement, showing its type, label, short label and colour |
| DegreeRequirementsMatcher.MatchClassToRequirements | backend/app/services/degree_requirements_matcher.py:395-542 | the loop with `seen_labels` returns the badges of the reference definition `MatchedBadges` |
| DegreeRequirementsMatcher.EarningLabels | backend/app/services/degree_requirements_matcher.py:424-541 | a label is kept iff some requirement with that label satisfies the test |
| DegreeRequirementsMatcher.EarningDistinct | backend/app/services/degree_requirements_matcher.py:426-428 | no two kept requirements share a label |
| DegreeRequirementsMatcher.EarningSound | backend/app/services/degree_requirements_matcher.py:424-541 | every kept requirement is an input that satisfies the test |
| DegreeRequirementsMatcher.EarningPrefix | backend/app/services/degree_requirements_matcher.py:424-541 | what is kept from a prefix is a prefix of what is kept: requirement order |
| DegreeRequirementsMatcher.EarningFirst | backend/app/services/degree_requirements_matcher.py:426-428 | the first requirement of a label to pass is kept |
| DegreeRequirementsMatcher.MatchedLabels | backend/app/services/degree_requirements_matcher.py:424-541 | a label has a badge iff some requirement with that label matches the class |
| DegreeRequirementsMatcher.MatchedBadgesSound | backend/app/services/degree_requirements_matcher.py:535-541 | each badge is that of a matched requirement |
| DegreeRequirementsMatcher.MatchedLabelsDistinct | backend/app/services/degree_requirements_matcher.py:426-428 | at most one badge per label |
| DegreeRequirementsMatcher.FirstMatchShown | backend/app/services/degree_requirements_matcher.py:426-428 | the first matching requirement of a label is the one shown |
| DegreeRequirementsMatcher.SingleRequirement | backend/app/services/degree_requirements_matcher.py:424-541 | one requirement gives its badge iff the class matches it |
| DegreeRequirementsMatcher.DigitsNumberValue | backend/app/services/degree_requirements_matcher.py:418-421 | a run of digits reads as its decimal value |
| DegreeRequirementsMatcher.ThreeDigitLevel | backend/app/services/degree_requirements_matcher.py:418-421 | a three-digit number's level is its decimal value |
| DegreeRequirementsMatcher.SuffixedNumberValue | backend/app/services/degree_requirements_matcher.py:418 | a trailing capital is stripped before reading the number |
| DegreeRequirementsMatcher.BranchConditions | backend/app/services/degree_requirements_matcher.py:433-531 | the exact condition under which each `elif` branch is chosen, by the requirement's shape |
| DegreeRequirementsMatcher.MatchNeedsSubject | backend/app/services/degree_requirements_matcher.py:433-516 | outside the GE-area and title branches a match needs the same subject |
| DegreeRequirementsMatcher.ExactCourseMatches | backend/app/services/degree_requirements_matcher.py:435-436 | the exact course matches its own requirement |
| DegreeRequirementsMatcher.NumberVariantMatches | backend/app/services/degree_requirements_matcher.py:438-444 | "350" and "350L" match each other in either role |
| DegreeRequirementsMatcher.LevelBounds | backend/app/services/degree_requirements_matcher.py:461-516 | graduate elective and core matches are numbered 500 or above; other elective matches 300 or above |
| DegreeRequirementsMatcher.UndergradSubjectMatches | backend/app/services/degree_requirements_matcher.py:483-516 | a non-graduate core or subject-only requirement takes any class of its subject |
| DegreeRequirementsMatcher.GradKeywordsRedundant | backend/app/services/degree_requirements_matcher.py:465-508 | "graduate" adds nothing to "grad"; the subject-only indicators imply the others |
| DegreeRequirementsMatcher.SystemsLabelReadAsGraduate | backend/app/services/degree_requirements_matcher.py:465-471 | "Operating Systems Elective" contains "ms " and so reads as graduate |
| DegreeRequirementsMatcher.SameTitleMatches | backend/app/services/degree_requirements_matcher.py:447-531 | a class with the requirement's own title matches in the subject-title and title-only branches |
| DegreeRequirementsMatcher.ElectiveLevelRule | backend/app/services/degree_requirements_matcher.py:461-479 | within its subject an elective takes exactly the classes at level 500 (graduate label) or 300 |
| DegreeRequirementsMatcher.Contains500 | backend/app/services/degree_requirements_matcher.py:467 | a label containing "500" is graduate |
| DegreeRequirementsMatcher.GraduateClassExample | backend/app/services/degree_requirements_matcher.py:461-479 | CPSC 510 satisfies "Graduate CPSC 500" |
| DegreeRequirementsMatcher.UndergradClassExample | backend/app/services/degree_requirements_matcher.py:461-479 | CPSC 230 does not satisfy "Graduate CPSC 500" |
| DegreeRequirementsMatcher.SubjectElectiveExample | backend/app/services/degree_requirements_matcher.py:461-479 | CPSC 590 satisfies "CPSC 500 Elective" |
| DegreeRequirementsMatcher.EnrichClassesWithRequirements | backend/app/services/degree_requirements_matcher.py:545-564 | the same list comes back and every class's badges are overwritten with those it earns |
| DegreeRequirementsMatcher.EthicsShortLabel | backend/app/services/degree_requirements_matcher.py:85-86 | "ethics_core" gives "Ethics" |
| DegreeRequirementsMatcher.LeadershipShortLabel | backend/app/services/degree_requirements_matcher.py:87-88 | "leadership_core" gives "Lead" |
| DegreeRequirementsMatcher.ComputingShortLabel | backend/app/services/degree_requirements_matcher.py:89-90 | "computing_systems" gives "Tech-CS" |
| DegreeRequirementsMatcher.DataScienceShortLabel | backend/app/services/degree_requirements_matcher.py:91-92 | "data_science_intelligent_systems" gives "Tech-DS" |
| DegreeRequirementsMatcher.ElectricalShortLabel | backend/app/services/degree_requirements_matcher.py:93-94 | "electrical_systems" gives "Tech-EE" |
| DegreeRequirementsMatcher.MasteryShortLabel | backend/app/services/degree_requirements_matcher.py:95-96 | "mastery" gives "Thesis" |
| DegreeRequirementsMatcher.CategoryBadgeKnown | backend/app/services/degree_requirements_matcher.py:57-99 | every category has its own label and short label, so neither default shows; the three core categories are major-core |
| DegreeRequirementsMatcher.EecsRequirementBadge | backend/app/services/degree_requirements_matcher.py:67-106 | the category search returns the badge of the reference definition `EecsBadge` |
| DegreeRequirementsMatcher.FirstKeySpec | backend/app/services/degree_requirements_matcher.py:78-79 | the first accepted key is found, none before it is accepted, and a key is found whenever one is accepted |
| DegreeRequirementsMatcher.EecsBadgeSpec | backend/app/services/degree_requirements_matcher.py:67-106 | a badge exists iff some category lists the code, and it is the badge of the first such category |
| DegreeRequirementsMatcher.NoTableNoBadge | backend/app/services/degree_requirements_matcher.py:67-106 | without the table no course has an EECS badge |
| DegreeRequirementsMatcher.EthicsCourseBadge | backend/app/services/degree_requirements_matcher.py:67-106 | an ethics course gets the blue major-core "Ethics Core" badge |
| DegreeRequirementsMatcher.MergeBadgeShape | backend/app/services/degree_requirements_matcher.py:590-599 | existing badges stay in front; the label ends up present; a badge is added iff its label was absent |
| DegreeRequirementsMatcher.MergeBadgeIdempotent | backend/app/services/degree_requirements_matcher.py:590-599 | merging the same badge twice is merging it once |
| DegreeRequirementsMatcher.MergeBadgeDistinct | backend/app/services/degree_requirements_matcher.py:590-599 | merging keeps labels distinct |
| DegreeRequirementsMatcher.WithBadgeIdempotent | backend/app/services/degree_requirements_matcher.py:587-599 | applying the looked-up badge twice is applying it once |
| DegreeRequirementsMatcher.AddEecsBadge | backend/app/services/degree_requirements_matcher.py:587-599 | one class's badges become the merge with the looked-up badge |
| DegreeRequirementsMatcher.EnrichClassesWithEecsRequirements | backend/app/services/degree_requirements_matcher.py:567-601 | a non-empty non-EECS name changes nothing; otherwise each class gets its EECS badge merged in; the same list comes back |
| DegreeRequirementsMatcher.AddEecsBadges | backend/app/services/degree_requirements_matcher.py:586-599 | the loop merges each class's badge into its own list, even for a class listed twice |
| DegreeRequirementsMatcher.GetRequirementSummary | backend/app/services/degree_requirements_matcher.py:604-626 | `total` is the length, the requirements are kept, and `byType` has exactly the types present, each with its count |
| DegreeRequirementsMatcher.TypeCountsSum | backend/app/services/degree_requirements_matcher.py:620-624 | the six type counts add up to `total` |
| DegreeRequirementsMatcher.TypeCountPositive | backend/app/services/degree_requirements_matcher.py:620-624 | a type is counted iff some requirement has it |
| DegreeRequirementsMatcher.SummaryExample | backend/app/services/degree_requirements_matcher.py:604-626 | two core and one GE requirement count 2 and 1 |
| DegreeRequirementsMatcher.NormalizeCourseCode | backend/app/services/degree_requirements_matcher.py:182-195 | defines `_normalize_course_code`: stripped, section suffix dropped, upper-cased, then split into subject and number, or the whole code with an empty number when the pattern fails; its properties are NormalizeShape, NormalizeSpaced, NormalizeSectioned and NormalizeLowerJoined |
| DegreeRequirementsMatcher.IsGeCourse | backend/app/services/degree_requirements_matcher.py:374-392 | defines `_is_ge_course` for one GE area: the course is listed for the area, or its subject is one of the area's prefixes; its properties are UnknownGeArea and GeCourseBySubject |
| DegreeRequirementsMatcher.ShortLabel | backend/app/services/degree_requirements_matcher.py:342-371 | defines `_short_label`: a fixed abbreviation per requirement type, and for GE an abbreviation of the label text; its property is ShortLabelByType |
| DegreeRequirementsMatcher.Matches | backend/app/services/degree_requirements_matcher.py:433-531 | defines whether a class meets a requirement, by branch: a direct course, subject with title or credits, a GE area, an elective or core level, or subject only; its properties are BranchConditions and MatchNeedsSubject |
| ClassesService.ParseTimeSlot | backend/app/services/classes_service.py:24-29 | a missing "startTime" or "endTime" key reads as 0, a present one is taken as stored |
| ClassesService.SlotRoundTrip | backend/app/services/classes_service.py:24-29 | parsing a slot's serialised dictionary gives the slot back |
| ClassesService.ParseDaySlots | backend/app/services/classes_service.py:32-42 | an absent day key gives no slots; otherwise one parsed slot per stored dictionary, in order |
| ClassesService.SlotListRoundTrip | backend/app/services/classes_service.py:32-42 | a day's list of serialised slots parses back to the same slots |
| ClassesService.DaysRoundTrip | backend/app/services/classes_service.py:32-42 | serialising a week of slots and parsing it back gives the same week |
| ClassesService.ParseOccurrenceData | backend/app/services/classes_service.py:45-64 | a blank or non-dictionary value gives the empty occurrence; a value that cannot be read is the only failure; a dictionary keeps its starts and ends |
| ClassesService.ParseCredits | backend/app/services/classes_service.py:75-89 | never negative; "" gives 0; text with a dash reads the part after the last dash, other text reads as a number, and anything unreadable gives 0 |
| ClassesService.AfterLastDash | backend/app/services/classes_service.py:80-81 | the last piece of splitting on "-" holds no dash |
| ClassesService.ParseProfessorRating | backend/app/services/classes_service.py:92-99 | blank text gives None; other text gives its number, or None when it is not one |
| ClassesService.MatchClassCodeSound | backend/app/services/classes_service.py:108-110 | what the code pattern finds is a well-formed split (capitals, spaces, digits with an optional capital, "-" or "_", digits) that reassembles the code |
| ClassesService.MatchClassCodeComplete | backend/app/services/classes_service.py:108-110 | every well-formed split is found by the pattern, and is the one it finds |
| ClassesService.ParseClassCodeExamples | backend/app/services/classes_service.py:102-110 | "CPSC 350-03" parses to subject "CPSC", number "350", section "03" |
| ClassesService.ParseLabCodeExample | backend/app/services/classes_service.py:102-110 | "BIOL 205L-01" keeps the lab letter in the number "205L" |
| ClassesService.ParseWellFormedCode | backend/app/services/classes_service.py:102-119 | a code the pattern accepts parses into exactly its subject, number and section groups |
| ClassesService.SectionId | backend/app/services/classes_service.py:127 | the id has the code's length, no space or slash, and every other character of the code unchanged |
| ClassesService.RowToSection | backend/app/services/classes_service.py:122-147 | a row converts exactly when it has a class code and a readable occurrence value; the section keeps that code, its id is derived from it, and its credits are never negative |
| ClassesService.ConvertRows | backend/app/services/classes_service.py:161-163 | each row is converted on its own, one result per row |
| ClassesService.FirstPerIdSound | backend/app/services/classes_service.py:164-169 | deduplication keeps each id at most once and keeps only converted rows |
| ClassesService.FirstPerIdFirstWins | backend/app/services/classes_service.py:164-169 | the section kept for an id is the earliest converted row carrying it |
| ClassesService.FirstPerIdIds | backend/app/services/classes_service.py:164-169 | an id is kept exactly when some converted row carries it |
| ClassesService.LoadedSections | backend/app/services/classes_service.py:150-174 | a missing file gives no sections; the loaded sections have pairwise distinct ids |
| ClassesService.LoadedCreditsNonNegative | backend/app/services/classes_service.py:150-174 | every loaded section has non-negative credits |
| ClassesService.KeepFirstPerId | backend/app/services/classes_service.py:164-174 | the loading loop yields the first section per id in file order, each a fresh object with no requirement badges |
| ClassesService.Catalog.LoadAllClasses | backend/app/services/classes_service.py:150-174 | a cached list is returned unchanged; otherwise the file's sections are built as fresh objects, in order, and cached |
| ClassesService.Catalog.ClearCache | backend/app/services/classes_service.py:177-179 | afterwards nothing is cached, so the next load reads the file again |
| ClassesService.FindClassById | backend/app/services/classes_service.py:182-188 | found exactly when some entry has the id; the entry found is the first with that id |
| ClassesService.ClassesByIds | backend/app/services/classes_service.py:191-195 | the result holds catalog entries whose id was asked for, holds every such entry, and is no longer than the catalog |
| ClassesService.ClassesByIdsOrdered | backend/app/services/classes_service.py:191-195 | the result is the catalog entries at increasing positions `idx`, and a catalog position is in `idx` exactly when its id was asked for, so the result keeps catalog order and repeats nothing |
| ClassesService.ClassesByIdsDistinct | backend/app/services/classes_service.py:191-195 | when catalog ids are distinct, so are the ids in the result |
| ClassesService.SearchMatchesMembers | backend/app/services/classes_service.py:233-278 | an entry matches exactly when it is in the catalog and passes the text, subject, credit, day and time filters |
| ClassesService.SearchMatchesAppend | backend/app/services/classes_service.py:233-278 | matches keep catalog order: searching two catalog parts one after the other gives the matches of the whole |
| ClassesService.MeetsTimeWindow | backend/app/services/classes_service.py:257-276 | the scan over the week's slots succeeds exactly when some slot lies inside the requested window |
| ClassesService.PassesFilters | backend/app/services/classes_service.py:234-276 | one loop turn keeps an entry exactly when it meets the search |
| ClassesService.SearchClasses | backend/app/services/classes_service.py:198-285 | the total is the number of matches; the page is the slice offset to offset+limit of the matches, with Python slice rules for negative values |
| ClassesService.SearchPage | backend/app/services/classes_service.py:280-285 | with a non-negative offset and limit, a page holds at most limit entries, starts at the offset-th match, and is empty past the end |
| ClassesService.InsertSorted | backend/app/services/classes_service.py:291 | inserting into a strictly ascending list keeps it strictly ascending and adds exactly the new element |
| ClassesService.UniqueSubjects | backend/app/services/classes_service.py:288-292 | the subject list is strictly ascending, so each subject appears once |
| ClassesService.UniqueSubjectsMembers | backend/app/services/classes_service.py:288-292 | a subject is listed exactly when it is non-empty and some entry has it |
| ClassesService.ClassesBySubjectMembers | backend/app/services/classes_service.py:295-299 | an entry is selected exactly when its subject equals the upper-cased request |
| ClassesService.TwoDigits | backend/app/services/classes_service.py:374 | two zero-padded digits whose value is the minutes |
| ClassesService.MinutesToTimePeriod | backend/app/services/classes_service.py:365-374 | within one day the text ends in "AM" exactly before noon |
| ClassesService.MinutesToTimeRoundTrip | backend/app/services/classes_service.py:365-374 | within one day, reading the clock text back gives the minute it came from |
| ClassesService.TwelveHourClock | backend/app/services/classes_service.py:367-373 | the displayed hour is 1 to 12, and the hour modulo 12, plus 12 after noon, recovers the time |
| ClassesService.FirstOverlapSpec | backend/app/services/classes_service.py:320-341 | the nested scan finds a slot pair exactly when the sections conflict, and the pair found overlaps on the day found |
| ClassesService.ConflictRecord | backend/app/services/classes_service.py:322-349 | the record names the two ids in order and a day on which their slots conflict |
| ClassesService.ConflictsAgainstEmpty | backend/app/services/classes_service.py:319-320 | a section gets no records exactly when it conflicts with none of the later sections |
| ClassesService.NoConflictRecordsIffConflictFree | backend/app/services/classes_service.py:318-358 | a schedule is reported valid exactly when no two of its sections conflict |
| ClassesService.ConflictRecordsSound | backend/app/services/classes_service.py:318-349 | every record names a conflicting pair, the earlier section first |
| ClassesService.CreditWarnings | backend/app/services/classes_service.py:351-355 | at most one warning, and none exactly when the total is between 12 and 18 credits |
| ClassesService.FindFirstOverlap | backend/app/services/classes_service.py:325-341 | the loops stop at the first overlapping pair in day order, as the specification function says |
| ClassesService.ValidateSchedule | backend/app/services/classes_service.py:302-362 | the conflicts are all the conflicting pairs of the selected sections, the credits are their total, the warnings match that total, and the schedule is valid exactly when the sections are pairwise conflict-free |
| ClassesService.AllConflictRecords | backend/app/services/classes_service.py:318-349 | the outer loop collects each section's records against the later ones |
| ClassesService.RecordsAgainst | backend/app/services/classes_service.py:319-349 | the inner loop collects one section's records against the sections from a position on |
| ClassesService.PairEntries | backend/app/services/classes_service.py:320-349 | one pair adds a record exactly when it conflicts |
| ClassesService.ConflictEntry | backend/app/services/classes_service.py:321-349 | the record built for a conflicting pair is the one the specification describes |
| ClassesService.ParseClassCode | backend/app/services/classes_service.py:102-119 | defines `_parse_class_code`: the code pattern's subject, number and section when it matches; otherwise the parts split on '-' and spaces, with section "01" when there are two parts, or the whole code when there are fewer; its properties are ParseWellFormedCode, ParseClassCodeExamples and ParseLabCodeExample |
| ClassesService.MinutesToTime | backend/app/services/classes_service.py:365-374 | defines `_minutes_to_time`: a 12-hour clock text with two-digit minutes and AM or PM; its properties are MinutesToTimePeriod and MinutesToTimeRoundTrip |
| ScheduleGenerator.RequiredSubjectsSpec | backend/app/services/schedule_generator.py:182-208 | a subject is required exactly when some requirement contributes it |
| ScheduleGenerator.VariousTechnicalExpands | backend/app/services/schedule_generator.py:193-199 | a "VARIOUS" requirement whose label mentions technical, core or elective brings in all ten technical subjects of the list at lines 49-51 |
| ScheduleGenerator.VariousOtherDropped | backend/app/services/schedule_generator.py:200-202 | any other "VARIOUS" requirement contributes no subject |
| ScheduleGenerator.RequiredSubjectsShape | backend/app/services/schedule_generator.py:182-208 | "VARIOUS" is never required literally; every required subject is a technical subject or some requirement's upper-cased subject |
| ScheduleGenerator.RequiredSubjectWitness | backend/app/services/schedule_generator.py:182-208 | each required subject comes from a particular requirement |
| ScheduleGenerator.ExtractRequiredSubjects | backend/app/services/schedule_generator.py:182-208 | the loop over the requirements builds exactly the required-subject set |
| ScheduleGenerator.RequiredCourseCodesSpec | backend/app/services/schedule_generator.py:211-220 | a code is required exactly when some requirement with both a subject and a number spells it as upper-cased subject, space, number |
| ScheduleGenerator.ExtractRequiredCourseCodes | backend/app/services/schedule_generator.py:211-220 | the loop builds exactly the required-code set |
| ScheduleGenerator.DigitsIn | backend/app/services/schedule_generator.py:230 | the kept characters are all digits and no more than the input |
| ScheduleGenerator.DigitsInAppend | backend/app/services/schedule_generator.py:230 | keeping the digits of two texts one after the other keeps the digits of their concatenation |
| ScheduleGenerator.GraduateLevelByDigits | backend/app/services/schedule_generator.py:223-235 | a three-digit number with a letter suffix is graduate level exactly when its first digit is 5 or more |
| ScheduleGenerator.GraduateLevelExamples | backend/app/services/schedule_generator.py:223-235 | "510" and "501L" are graduate level, "230" and "101L" are not |
| ScheduleGenerator.NoDigitsNotGraduate | backend/app/services/schedule_generator.py:231-235 | a number without digits is never graduate level |
| ScheduleGenerator.PlaceholderSuffix | backend/app/services/schedule_generator.py:258-265 | with no placeholder keyword in the title, a course is a placeholder exactly when its number's last character is B or b; a lab number such as 205L is not |
| ScheduleGenerator.FirstKeywordRedundant | backend/app/services/schedule_generator.py:248-256 | the first keyword contains the second, so the test is equivalent to the last two keywords or a trailing B/b |
| ScheduleGenerator.AnyEntryAdmits | backend/app/services/schedule_generator.py:163-171 | the scan over one course's entries finds an admitting entry exactly when one exists: names match case-blind in either direction, and graduate students need a graduate catalog entry |
| ScheduleGenerator.GetValidCoursesForProgram | backend/app/services/schedule_generator.py:137-179 | an empty program name gives no courses; otherwise exactly the mapped codes with an admitting entry, whatever the order of the mapping |
| ScheduleGenerator.ProgramMatchingRules | backend/app/services/schedule_generator.py:163-170 | an entry with an empty program name admits its course for every program, and for graduate students too when its catalog is graduate |
| ScheduleGenerator.GraduateNeedsGraduateCatalog | backend/app/services/schedule_generator.py:168-169 | a course valid for a graduate student is valid for an undergraduate and has a graduate catalog entry |
| ScheduleGenerator.FilteredMembers | backend/app/services/schedule_generator.py:386-419 | with requirements, a class is kept exactly when it is in the catalog, eligible (not completed, no placeholder, graduate level for graduates) and relevant (code required, subject required, or code valid for the program) |
| ScheduleGenerator.FilteredInCatalogOrder | backend/app/services/schedule_generator.py:338-438 | the kept classes are a subsequence of the catalog, in catalog order |
| ScheduleGenerator.FilteredExclusions | backend/app/services/schedule_generator.py:389-403 | with requirements, no completed code, no placeholder and, for graduate students, no course below 500 gets through |
| ScheduleGenerator.RequiredSubjectOffered | backend/app/services/schedule_generator.py:410-413 | an eligible class of a subject-only requirement's subject is always kept |
| ScheduleGenerator.SelectOffered | backend/app/services/schedule_generator.py:386-419 | the filtering loop keeps exactly the offered classes, in order |
| ScheduleGenerator.FilterClassesByRequirements | backend/app/services/schedule_generator.py:314-438 | no requirements give the first 100 classes; otherwise the offered classes under the required subjects, codes and program codes (none when the program name is empty) |
| ScheduleGenerator.Snapshot | backend/app/services/schedule_generator.py:653-670 | the grouping sees one value per class: its record and its current badges |
| ScheduleGenerator.CandidatePoolMembers | backend/app/services/schedule_generator.py:620-627 | with requirements only classes with badges are candidates; without, every class is |
| ScheduleGenerator.PreferenceFilteredSpec | backend/app/services/schedule_generator.py:629-650 | the preference step only drops classes, never leaves a non-empty catalog without candidates, and keeps only classes avoiding the avoided days whenever some candidate does |
| ScheduleGenerator.HitsAvoidedDay | backend/app/services/schedule_generator.py:636 | true exactly when some avoided day occurs in the display days |
| ScheduleGenerator.FilterAvoidedDays | backend/app/services/schedule_generator.py:633-638 | the loop keeps exactly the candidates meeting on no avoided day, in order |
| ScheduleGenerator.AddToSpec | backend/app/services/schedule_generator.py:663-665 | appending under a key adds exactly that candidate to that bucket |
| ScheduleGenerator.AddCandidateSpec | backend/app/services/schedule_generator.py:654-670 | a class goes into the bucket of each of its badges, or into the general bucket when it has none |
| ScheduleGenerator.GroupingSpec | backend/app/services/schedule_generator.py:653-670 | a bucket holds a class exactly when the class is a candidate and the key is one of its badge keys, or "general" for a class without badges |
| ScheduleGenerator.BadgeKeysSpec | backend/app/services/schedule_generator.py:657-662 | the keys of a badge list are exactly its badges' type-and-label keys |
| ScheduleGenerator.GeneralKeyIsNoBadgeKey | backend/app/services/schedule_generator.py:660-670 | a badge key always holds an underscore, so it never names the general bucket |
| ScheduleGenerator.AppendToBucket | backend/app/services/schedule_generator.py:663-665 | one append creates the list when the key is new and then appends |
| ScheduleGenerator.AppendUnderBadges | backend/app/services/schedule_generator.py:657-665 | the inner loop appends the class under each of its badge keys |
| ScheduleGenerator.GroupCandidates | backend/app/services/schedule_generator.py:653-670 | the grouping loop builds exactly the grouping |
| ScheduleGenerator.SortByRatingSpec | backend/app/services/schedule_generator.py:677 | the sort puts the highest rating first, a missing rating counting as 0, and keeps every class |
| ScheduleGenerator.TopRatedSpec | backend/app/services/schedule_generator.py:677-678 | at most five classes, all from the bucket, and every class left out rates no higher than any class picked |
| ScheduleGenerator.FirstPerIdSpec | backend/app/services/schedule_generator.py:674-683 | the id-keyed dictionary keeps the first class per id: every id once, no id lost, only input classes |
| ScheduleGenerator.PicksMembers | backend/app/services/schedule_generator.py:675-681 | a class is picked exactly when it is among the top five of some bucket |
| ScheduleGenerator.PicksNonEmpty | backend/app/services/schedule_generator.py:675-681 | a non-empty bucket always contributes a pick |
| ScheduleGenerator.PickSource | backend/app/services/schedule_generator.py:675-681 | every pick comes from the top five of some bucket |
| ScheduleGenerator.GroupPicksSpec | backend/app/services/schedule_generator.py:653-683 | grouping and picking a non-empty candidate list gives a non-empty list with unique ids, each among the top five of a bucket it belongs to |
| ScheduleGenerator.CandidateListSpec | backend/app/services/schedule_generator.py:618-687 | for a non-empty catalog the candidate list is non-empty, has unique ids, and each entry is among the top five of one of its buckets |
| ScheduleGenerator.AddNewIds | backend/app/services/schedule_generator.py:679-681 | the inner loop adds each pick whose id is new |
| ScheduleGenerator.PickCandidates | backend/app/services/schedule_generator.py:674-683 | the loop over the buckets takes the first class per id among the top-five picks |
| ScheduleGenerator.ChooseCandidates | backend/app/services/schedule_generator.py:618-687 | steps 2 and 3 compute the candidate list |
| ScheduleGenerator.SelectCandidates | backend/app/services/schedule_generator.py:618-687 | the same over catalog objects whose badges the matcher has set |
| ScheduleGenerator.ClassMapSpec | backend/app/services/schedule_generator.py:950 | the id map knows exactly the catalog's ids, each bound to a class with that id |
| ScheduleGenerator.GreedyClashFree | backend/app/services/schedule_generator.py:955-971 | no kept class clashes with a class kept before it |
| ScheduleGenerator.GreedyInOrder | backend/app/services/schedule_generator.py:955-971 | the kept ids are listed in input order |
| ScheduleGenerator.GreedyDropped | backend/app/services/schedule_generator.py:955-971 | first wins: the kept ids sit at increasing input positions `idx`, and every known id at a position not kept clashes with a class kept from an earlier position |
| ScheduleGenerator.WithoutConflictsOrdered | backend/app/services/schedule_generator.py:946-973 | zero or one id comes back unchanged; any result is an ordered sublist of the input |
| ScheduleGenerator.WithoutConflictsClashFree | backend/app/services/schedule_generator.py:949-973 | from two ids on, the result lists only catalog ids, no two of whose classes conflict |
| ScheduleGenerator.WithoutConflictsMaximal | backend/app/services/schedule_generator.py:955-971 | first wins: the result picks input positions `idx` in order, and every catalog id at a position not picked conflicts with a class picked from an earlier position |
| ScheduleGenerator.WithoutConflictsSpec | backend/app/services/schedule_generator.py:941-973 | up to one id comes back unchanged; the result picks input positions `idx` in order; from two ids on it lists catalog ids no two of which conflict; and every catalog id at a position not picked conflicts with a class picked from an earlier position |
| ScheduleGenerator.WithoutConflictsUnique | backend/app/services/schedule_generator.py:941-973 | from two ids on, any ordered selection of catalog ids that is conflict-free and in which each catalog id left out conflicts with an earlier pick is exactly the result, so the properties above determine it |
| ScheduleGenerator.GreedyUnique | backend/app/services/schedule_generator.py:955-971 | an ordered, clash-free selection of known ids in which each known id left out clashes with a class kept from an earlier position is the greedy pass's result |
| ScheduleGenerator.WithoutConflictsNonEmpty | backend/app/services/schedule_generator.py:955-971 | a known id among the input means something is kept |
| ScheduleGenerator.ConflictsWithSelected | backend/app/services/schedule_generator.py:963-967 | the inner loop finds a conflict exactly when the candidate conflicts with some class kept so far |
| ScheduleGenerator.RemoveConflicts | backend/app/services/schedule_generator.py:941-973 | the loops compute the greedy first-wins selection |
| ScheduleGenerator.ValidIdsSpec | backend/app/services/schedule_generator.py:903-911 | an id is kept exactly when it was selected and is a relevant or catalog id; reply order and repetitions are kept |
| ScheduleGenerator.KeepValidIds | backend/app/services/schedule_generator.py:906-911 | the validation loop computes the valid ids |
| ScheduleGenerator.RelevantIdsInCatalog | backend/app/services/schedule_generator.py:735-745 | the relevant classes are part of the catalog, so testing them first admits no extra id in the whitelist at lines 903-904 |
| ScheduleGenerator.ValidIdsNonEmpty | backend/app/services/schedule_generator.py:906-915 | some id survives validation exactly when the reply names a catalog id |
| ScheduleGenerator.RepairedIdsSpec | backend/app/services/schedule_generator.py:906-918 | after validation and conflict removal the ids are non-empty, in reply order, catalog ids only, and pairwise conflict-free |
| ScheduleGenerator.ScheduleOutcomeSpec | backend/app/services/schedule_generator.py:874-938 | a schedule is generated exactly when the catalog is non-empty and the reply names a catalog id; every error outcome carries no ids; a generated schedule is non-empty, in reply order, catalog ids only and conflict-free; the empty-catalog case is the return at lines 615-616 |
| ScheduleGenerator.FinishSchedule | backend/app/services/schedule_generator.py:874-938 | the no-catalog return (lines 615-616), the error replies, validation and conflict removal compute that outcome |
| ScheduleGenerator.IsGraduateLevelCourse | backend/app/services/schedule_generator.py:223-235 | defines `_is_graduate_level_course`: the digits of the course number read as a value of at least 500; its properties are GraduateLevelByDigits and GraduateLevelExamples |
| ScheduleGenerator.IsAdministrativePlaceholder | backend/app/services/schedule_generator.py:238-265 | defines `_is_administrative_placeholder`: a placeholder keyword in the lower-cased title, or a number ending in B or b; its properties are PlaceholderSuffix and FirstKeywordRedundant |
| ScheduleGenerator.WithoutConflicts | backend/app/services/schedule_generator.py:941-973 | defines `_remove_conflicts` as a first-wins greedy pass over the ids in input order; its properties are WithoutConflictsSpec and WithoutConflictsUnique |
| ScheduleGenerator.ValidIds | backend/app/services/schedule_generator.py:903-911 | defines the filter of the selected ids down to ids that are relevant or in the catalog, in order; its property is ValidIdsSpec |
| ScheduleSnapshotService.SaveReplySpec | backend/app/services/schedule_snapshot_service.py:83-93 | a 409, or a 400 whose text mentions "duplicate" in any case, is a duplicate name; otherwise only a 200 or 201 with rows succeeds, with the first row, and one without rows is the no-data failure |
| ScheduleSnapshotService.DuplicateReplyExamples | backend/app/services/schedule_snapshot_service.py:83-84 | a 409 and a 400 saying "Duplicate key" both report the duplicate name |
| ScheduleSnapshotService.FailedReplyExamples | backend/app/services/schedule_snapshot_service.py:83-93 | a 400 without "duplicate" is a plain failure carrying the body; a 201 needs a row |
| ScheduleSnapshotService.ListReplySpec | backend/app/services/schedule_snapshot_service.py:115-119 | a non-200 reply lists nothing; a 200 lists its rows in reply order |
| ScheduleSnapshotService.GetReplySpec | backend/app/services/schedule_snapshot_service.py:142-183 | a lookup finds something exactly when the select answered 200 with a row, and what it finds is a returned row |
| ScheduleSnapshotService.UpdateReplySpec | backend/app/services/schedule_snapshot_service.py:269-280 | an update conflict is a duplicate name; otherwise a row comes back exactly on a 200 or 204 with rows |
| ScheduleSnapshotService.NewScheduleData | backend/app/services/schedule_snapshot_service.py:64-68 | the stored data keeps the ids and credits, and the class count is the number of ids |
| ScheduleSnapshotService.MergedScheduleDataSpec | backend/app/services/schedule_snapshot_service.py:249-256 | given ids replace the old ones and recount the classes; omitted ids keep the old ids and count; omitted credits keep the old total |
| ScheduleSnapshotService.UpdatePayloadSpec | backend/app/services/schedule_snapshot_service.py:242-260 | a given name that is blank after stripping is refused; otherwise the payload is empty exactly when no field was given |
| ScheduleSnapshotService.SnapshotTable.Insert | backend/app/services/schedule_snapshot_service.py:76-81 | the insert adds the row and answers 201 with it, or answers 409 and changes nothing when the id or the owner's name is taken |
| ScheduleSnapshotService.SnapshotTable.DeleteWhere | backend/app/services/schedule_snapshot_service.py:199-204 | the delete removes exactly the rows with that id and owner and answers 204 |
| ScheduleSnapshotService.SnapshotTable.PatchWhere | backend/app/services/schedule_snapshot_service.py:262-267 | the patch rewrites exactly the rows with that id and owner and returns them, or answers 409 and changes nothing when the new name is taken |
| ScheduleSnapshotService.NewestFirstSpec | backend/app/services/schedule_snapshot_service.py:106-119 | the list holds each of the user's rows, and only those |
| ScheduleSnapshotService.WithIdAtMostOne | backend/app/services/schedule_snapshot_service.py:137-149 | ids being unique, a lookup by id matches at most one row |
| ScheduleSnapshotService.SaveSnapshot | backend/app/services/schedule_snapshot_service.py:34-93 | an unknown user and a blank name are refused without a write; otherwise the stripped name is stored with the new schedule data, unless it clashes, which reports the duplicate name and leaves the table alone |
| ScheduleSnapshotService.ListSnapshots | backend/app/services/schedule_snapshot_service.py:96-119 | an unknown user lists nothing; otherwise the user's rows, newest first |
| ScheduleSnapshotService.GetSnapshot | backend/app/services/schedule_snapshot_service.py:122-149 | an unknown user finds nothing; otherwise the first row with that id owned by the user |
| ScheduleSnapshotService.GetSnapshotByName | backend/app/services/schedule_snapshot_service.py:152-183 | an unknown user finds nothing; otherwise the first row with that exact name owned by the user |
| ScheduleSnapshotService.FoundRowOwned | backend/app/services/schedule_snapshot_service.py:137-183 | a found row is in the table, is the caller's and carries the asked-for id or name; nothing is found by id exactly when no row has that id and owner |
| ScheduleSnapshotService.DeleteSnapshot | backend/app/services/schedule_snapshot_service.py:186-206 | the result is true exactly for a known user, whether or not the snapshot existed; only that user's row with that id is removed |
| ScheduleSnapshotService.UpdateSnapshot | backend/app/services/schedule_snapshot_service.py:209-280 | the call's result and the new table are the update outcome for the old table |
| ScheduleSnapshotService.UpdateLeavesTable | backend/app/services/schedule_snapshot_service.py:228-260 | a missing snapshot, a blank name, a clashing name and an update with no fields leave the table unchanged |
| ScheduleSnapshotService.UpdatedRowSpec | backend/app/services/schedule_snapshot_service.py:262-280 | a returned row is the caller's row with that id, taken from the new table, and no other row changed |
| ScheduleSnapshotService.UpdateOutcomeSpec | backend/app/services/schedule_snapshot_service.py:209-280 | both properties together |
| ChatService.FirstWordIsSplitHead | backend/app/services/chat_service.py:46-47 | the first word is the head of the whitespace split, and "" exactly when the split is empty |
| ChatService.NameAfterCommaIsWord | backend/app/services/chat_service.py:37-43 | the name taken after a comma is empty or one space-free word of the text it came from |
| ChatService.FirstNameIsWordOfName | backend/app/services/chat_service.py:23-47 | the first name is empty or a single space-free word of the full name without a comma |
| ChatService.FirstNameOfCommaForm | backend/app/services/chat_service.py:33-43 | "Last,<spaces>First - ID", the ID tail optional, gives First whatever the last name and the ID, as long as neither holds a comma; so "Favela,Matt - 2390407" gives "Matt" and "Smith, Mary-Jane - 123" gives "Mary-Jane" |
| ChatService.FirstNameOfBareComma | backend/app/services/chat_service.py:33-43 | a name ending in its only comma gives "" |
| ChatService.FirstNameBareCommaExample | backend/app/services/chat_service.py:33-43 | "Favela," gives "" |
| ChatService.CollectMapped | backend/app/services/chat_service.py:352-357 | a column is collected exactly when some collected field maps to it, unknown fields mapping to themselves |
| ChatService.CheckOnboardingCompleteness | backend/app/services/chat_service.py:331-361 | the missing list is the specification's, and onboarding is complete exactly when it is empty |
| ChatService.MissingFieldsSpec | backend/app/services/chat_service.py:336-361 | a field is missing exactly when it is required, not collected and not set; the list keeps the required order; it is empty exactly when every required field is collected or set |
| ChatService.MissingFieldsMembers | backend/app/services/chat_service.py:359 | a field is missing exactly when it is required and still missing |
| ChatService.NextQuestionTopic | backend/app/services/chat_service.py:364-390 | the loop returns the first open topic in the fixed question order |
| ChatService.FirstOpenTopicSpec | backend/app/services/chat_service.py:383-390 | the topic is "complete" exactly when every question is answered; otherwise it is an unanswered question all of whose predecessors are answered |
| ChatService.CoreAnswersComplete | backend/app/services/chat_service.py:336-361 | collecting planning mode, credits, work status and summer completes onboarding |
| ChatService.CoreAnswersLeaveFocus | backend/app/services/chat_service.py:374-390 | with the time preference collected too, only the optional focus question can remain |
| ChatService.SummaryTextPlaceholder | backend/app/services/chat_service.py:426 | the placeholder is the summary exactly when there are no parts, as no part begins like it |
| ChatService.SummaryTextMode | backend/app/services/chat_service.py:395-426 | the joined summary starts with "Mode: " exactly when the mode part is present |
| ChatService.SummaryFailsOnNumbers | backend/app/services/chat_service.py:406-414 | the summary raises only when the time or summer value is a number, which has no capitalize method |
| ChatService.FirstPartLabel | backend/app/services/chat_service.py:395-424 | every part starts with its label, and only the mode part starts with M |
| ChatService.SummaryNothingIff | backend/app/services/chat_service.py:393-426 | "Nothing collected yet" is the summary exactly when no part applies |
| ChatService.SummaryModeFirst | backend/app/services/chat_service.py:396-402 | the summary begins with the mode exactly when planning mode is set |
| ChatService.ExtractFirstName | backend/app/services/chat_service.py:23-47 | defines `_extract_first_name`: for a name with a comma, the first word after it without a " - ID" tail; otherwise the first word; its properties are FirstNameIsWordOfName, FirstNameOfCommaForm and FirstNameOfBareComma |
| ChatService.MissingFields | backend/app/services/chat_service.py:331-361 | defines the onboarding fields still unanswered, in question order; its property is CheckOnboardingCompleteness |
| ChatService.FirstOpenTopic | backend/app/services/chat_service.py:364-390 | defines the next question topic as the first unanswered field, or "complete"; its property is NextQuestionTopic |
| ChatService.CollectedSummary | backend/app/services/chat_service.py:393-426 | defines the summary of the collected answers: the labelled parts joined by commas, or "Nothing collected yet", and none where the source raises; its properties are SummaryNothingIff and SummaryTextPlaceholder |
| ChatCatalog.SuffixAt | backend/app/services/chat_service.py:477 | the length found is that of the first alternative matching at the position; none found means no alternative matches there |
| ChatCatalog.DropDegreeSuffixes | backend/app/services/chat_service.py:477 | removing degree suffixes never lengthens the text |
| ChatCatalog.Collapse | backend/app/services/chat_service.py:479 | collapsing produces nothing from nothing |
| ChatCatalog.CollapseChars | backend/app/services/chat_service.py:479 | after collapsing only [a-z0-9] and single spaces remain, and a leading space comes only from a leading non-alphanumeric character |
| ChatCatalog.NormalizedIsCanonical | backend/app/services/chat_service.py:474-480 | a normalised name is single-spaced with no space at either end |
| ChatCatalog.NormalizeFixedPoint | backend/app/services/chat_service.py:474-480 | a canonical name with no degree suffix as a word normalises to itself |
| ChatCatalog.NormalizeDropsSuffixWord | backend/app/services/chat_service.py:474-480 | a dotless degree suffix after a canonical name is dropped: "computer science bs" normalises to "computer science" |
| ChatCatalog.FirstSpanFrom | backend/app/services/chat_service.py:491 | the search finds the leftmost "dddd-dddd" at or after the position, or reports that there is none |
| ChatCatalog.FirstYearFrom | backend/app/services/chat_service.py:495 | the search finds the leftmost four digits at or after the position, or reports that there is none |
| ChatCatalog.NewestWhereSpec | backend/app/services/chat_service.py:501-512 | the catalog picked has a greatest year string among those admitted, and every admitted catalog before it is strictly older, as a stable newest-first sort puts it |
| ChatCatalog.ChooseCatalogNone | backend/app/services/chat_service.py:483-485 | no catalog is chosen exactly when there are none |
| ChatCatalog.ChooseCatalogSpec | backend/app/services/chat_service.py:483-512 | the choice is in the input: the first newest catalog with exactly the requested span, else with the requested year as prefix, else the first newest catalog |
| ChatCatalog.Score | backend/app/services/chat_service.py:549-559 | a score is 0, 100, 80, or 50 plus an overlap of at least two words |
| ChatCatalog.ScoreSymmetric | backend/app/services/chat_service.py:549-559 | the score does not depend on which name is the target |
| ChatCatalog.ScoreExact | backend/app/services/chat_service.py:551-552 | the exact name scores 100, and another name reaches 100 only by sharing at least 50 words |
| ChatCatalog.BestOfSpec | backend/app/services/chat_service.py:541-569 | the best score bounds every score; no program is found exactly when the best is 0; the one found has the best score and every earlier program scores strictly less |
| ChatCatalog.BestOfStep | backend/app/services/chat_service.py:561-563 | only a strictly greater score replaces the current best |
| ChatCatalog.ScorePrograms | backend/app/services/chat_service.py:541-563 | the scoring loop computes the best score and its first index |
| ChatCatalog.FindBestProgramMatch | backend/app/services/chat_service.py:515-569 | the function's loop computes the best program match |
| ChatCatalog.BestProgramMatchSpec | backend/app/services/chat_service.py:515-569 | with a program name and catalogs, either every program of the chosen catalog scores 0 and nothing is found, or the chosen catalog and a first program with the greatest positive score are returned |
| ChatCatalog.NormalizeProgramName | backend/app/services/chat_service.py:474-480 | defines `_normalize_program_name`: lower-cased, degree suffixes dropped, every run of other characters replaced by one space, then stripped; its properties are NormalizedIsCanonical, NormalizeFixedPoint and NormalizeDropsSuffixWord |
| ChatCatalog.ChooseCatalog | backend/app/services/chat_service.py:483-512 | defines `_choose_catalog`: the newest catalog of the exact year span asked for, else the newest whose year starts with the year asked for, else the newest; its properties are ChooseCatalogNone and ChooseCatalogSpec |
| DegreeStatus.CodeFromCourse | backend/app/services/chat_service.py:602-612 | a code found is never empty: subject and number when both are present, else the course-code pattern at the start of the title |
| DegreeStatus.TitleCodeCanonical | backend/app/services/chat_service.py:608-611 | a code read from a title has the catalog's "SUBJ NUM" form |
| DegreeStatus.CodesOfMembers | backend/app/services/chat_service.py:614-621 | a code is collected exactly when some course yields it |
| DegreeStatus.CollectCodes | backend/app/services/chat_service.py:614-621 | one loop collects exactly the codes of its courses |
| DegreeStatus.ExtractTranscriptCodes | backend/app/services/chat_service.py:592-623 | the completed and in-progress codes are the codes of the completed and in-progress courses |
| DegreeStatus.CanonicalCodeAgrees | backend/app/services/chat_service.py:602-651 | a section item and a transcript course with the same capital subject and number yield the same code, so the two sides compare equal |
| DegreeStatus.GatherCodes | backend/app/services/chat_service.py:643-651 | the loop gathers exactly the section's course codes, in order |
| DegreeStatus.AnyInIff | backend/app/services/chat_service.py:656-657 | any holds exactly when some code is in the set |
| DegreeStatus.AllInIff | backend/app/services/chat_service.py:658 | all holds exactly when every code is in the set |
| DegreeStatus.StatusOfSpec | backend/app/services/chat_service.py:653-665 | no status exactly when there are no codes; "complete" exactly when all codes are completed; "not_started" exactly when none is completed or in progress; "in_progress" exactly when some is not completed and some is completed or in progress |
| DegreeStatus.StatusMonotone | backend/app/services/chat_service.py:656-665 | more completed or in-progress courses never set a section back |
| DegreeStatus.StatusBySet | backend/app/services/chat_service.py:656-665 | the status depends only on the set of codes, not their order or repeats |
| DegreeStatus.SectionStatusOf | backend/app/services/chat_service.py:642-665 | a section's status is that of its gathered codes |
| DegreeStatus.ComputeDegreeStatus | backend/app/services/chat_service.py:626-677 | the loop computes the status list: nothing without a catalog context or with no requirements, otherwise one entry per section that names courses |
| DegreeStatus.StatusListSpec | backend/app/services/chat_service.py:667-677 | the list has one entry per section that names courses, in order, each with its title and status |
| DegreeStatus.StatusListOrdered | backend/app/services/chat_service.py:670-672 | sections without codes are left out and the rest keep their order |
| DegreeStatus.StatusOf | backend/app/services/chat_service.py:653-665 | defines a section's status: none without codes, else complete, in progress or not started from the completed and in-progress sets; its properties are StatusOfSpec, StatusMonotone and StatusBySet |
| OnboardingPreferences.CreditRoundTrip | backend/app/main.py:593-601 | a known credit load, saved as its range by `credit_map` (lines 429-438) and read back, gives the load again |
| OnboardingPreferences.ReverseCreditExact | backend/app/main.py:593-601 | the reverse map names a load exactly for the range of some load, that load's range being the pair given; any other pair gives None |
| OnboardingPreferences.TimeMapsInverse | backend/app/main.py:604-611 | `time_map` (lines 441-447) and its reverse are inverse both ways, and the reverse gives None outside "morning", "afternoon" and "flexible" |
| OnboardingPreferences.PriorityMapsInverse | backend/app/main.py:614-621 | `priority_map` (lines 456-462) and its reverse are inverse both ways, and the reverse gives None outside its three values |
| OnboardingPreferences.BuildSchedulingPayload | backend/app/main.py:421-465 | the step-by-step payload build gives the payload of the answers |
| OnboardingPreferences.PayloadCredits | backend/app/main.py:434-438 | credits are collected, with both bounds set, exactly for a known credit load, and the stored range reads back as that load |
| OnboardingPreferences.PayloadTimePreference | backend/app/main.py:446-448 | an unknown schedule preference adds nothing; a known one is collected and reads back as the answer |
| OnboardingPreferences.PayloadPriority | backend/app/main.py:461-463 | an unknown priority adds nothing; a known one is collected as "focus" and reads back as the answer |
| OnboardingPreferences.PayloadCopiedFields | backend/app/main.py:424-453 | planning mode and work status are copied and collected whenever present |
| OnboardingPreferences.PayloadFieldsOrdered | backend/app/main.py:421-465 | the collected fields name each field at most once, in the fixed order |
| OnboardingPreferences.SignUpInputCheck | backend/app/main.py:183-191 | the account store is contacted exactly when the email ends in "@chapman.edu" and the password has at least 6 characters; the email is checked first |
| PdfParser.PhysicalLines | backend/app/services/pdf_parser.py:41 | `text.splitlines()`: no produced line holds a line boundary; "\r\n" is one boundary and a final boundary opens no empty line |
| PdfParser.SplitLinesClean | backend/app/services/pdf_parser.py:40-41 | every line `_split_lines` yields is non-empty, already stripped and free of line boundaries |
| PdfParser.SplitLinesJoin | backend/app/services/pdf_parser.py:40-41 | joining clean lines with "\n" and splitting again gives exactly those lines back, in order |
| PdfParser.PhysicalLinesCons | backend/app/services/pdf_parser.py:41 | a non-empty line followed by "\n" is split off whole ahead of the rest |
| PdfParser.RqTagHeading | backend/app/services/pdf_parser.py:49-50 | a line starting with a capital and ending in a tag "[RQ n]" (optional blanks, at least one digit) is a heading |
| PdfParser.PrefixHeading | backend/app/services/pdf_parser.py:51-52 | a line starting with "Option", "Minimum", "MASTER" or "GRADUATE" is a heading, whatever follows |
| PdfParser.NotHeading | backend/app/services/pdf_parser.py:44-53 | a line holding a lower-case letter and not starting with a capital passes none of the tests, so is no heading |
| PdfParser.CoalesceCourseLines | backend/app/services/pdf_parser.py:92-114 | the buffering loop computes the coalesced entries: a start line flushes the open buffer, other lines extend it until it ends in credits and a grade or "IP", and the last buffer is flushed |
| PdfParser.CoalesceFromAppend | backend/app/services/pdf_parser.py:96-109 | running the loop over two stretches of lines is running it over their concatenation |
| PdfParser.LeadingLinesDropped | backend/app/services/pdf_parser.py:96-104 | lines before the first course-line start contribute nothing |
| PdfParser.CoalescedEntries | backend/app/services/pdf_parser.py:92-114 | there is exactly one entry per course-line start, in order; each begins with its start line and still matches the start pattern |
| PdfParser.CreditsFloat | backend/app/services/pdf_parser.py:128 | captured credits `d.dd` convert to the decimal number they spell |
| PdfParser.AddMatchedCourses | backend/app/services/pdf_parser.py:121-152 | the `add_course` loop appends each matched course not seen before, so the result is the earlier courses plus the new matches with repeats removed, and the seen set equals the kept courses |
| PdfParser.ParseCourses | backend/app/services/pdf_parser.py:117-154 | returns the de-duplicated courses of the coalesced entries followed by those of the raw lines |
| PdfParser.ParsedCoursesSpec | backend/app/services/pdf_parser.py:117-154 | the parsed courses have no repeats, are exactly the candidate matches, and come in order of their first occurrence |
| PdfParser.MatchedLineKept | backend/app/services/pdf_parser.py:149-152 | every line the course pattern matches has its course among the parsed courses |
| PdfParser.ParseCreditRequirements | backend/app/services/pdf_parser.py:157-177 | the heading-tracking loop computes the credit-requirement list of the lines |
| PdfParser.ScanHeading | backend/app/services/pdf_parser.py:159-164 | the heading the loop carries is the last heading line seen so far |
| PdfParser.RequirementsStep | backend/app/services/pdf_parser.py:161-176 | one more line adds an entry exactly when it is no heading and holds a credit line, labelled with the last heading before it or "General" |
| PdfParser.RequirementsCount | backend/app/services/pdf_parser.py:161-176 | there is one entry per non-heading credit line |
| PdfParser.LastHeadingIn | backend/app/services/pdf_parser.py:159-164 | the most recent heading is empty or a heading line of the text |
| PdfParser.RequirementLabels | backend/app/services/pdf_parser.py:170 | every label is "General" or a heading line of the text |
| PdfParser.CourseViews | backend/app/services/pdf_parser.py:276-285 | a course graded "IP" is in progress and never completed; a graded course of type "IP" is in both views; an ungraded non-IP course is in neither |
| PdfParser.MasteryExtended | backend/app/services/pdf_parser.py:265-269 | more text never loses a mastery, and "Thesis Defense" wins over "Capstone Project" wherever each appears |
| PdfParser.ParseProgramEvaluation | backend/app/services/pdf_parser.py:256-293 | assembles the evaluation of the text: courses, both views, credit requirements and mastery |
| PdfParser.EvaluationViews | backend/app/services/pdf_parser.py:256-293 | the in-progress and completed views hold exactly the found courses that pass their tests, and every coalesced entry starts like a course line |
| PdfParser.SplitLines | backend/app/services/pdf_parser.py:40-41 | defines the split of the extracted text into stripped, non-empty lines; its properties are SplitLinesClean and SplitLinesJoin |
| PdfParser.LooksLikeHeading | backend/app/services/pdf_parser.py:44-53 | defines `_looks_like_heading`: a non-empty line that is upper-case text, carries an "[RQ n]" tag after a capitalised title, or starts with one of the heading prefixes; its properties are NotHeading and RqTagHeading |
| PdfParser.Coalesced | backend/app/services/pdf_parser.py:92-114 | defines `_coalesce_course_lines`: a line that starts a course entry opens a buffer, later lines join it until the credits-and-grade ending completes the entry, and what is left is flushed; its properties are CoalesceCourseLines and CoalescedEntries |
| PdfParser.ParsedCourses | backend/app/services/pdf_parser.py:117-154 | defines `_parse_courses`: the courses matched in the coalesced entries, then those matched in the raw lines, each kept at its first occurrence; its properties are ParseCourses and ParsedCoursesSpec |
| PdfParser.CreditRequirements | backend/app/services/pdf_parser.py:157-177 | defines `_parse_credit_requirements`: a heading line becomes the current heading, and each credit line adds a requirement labelled from that heading; its property is ParseCreditRequirements |
| PdfParser.MasteryOf | backend/app/services/pdf_parser.py:265-269 | defines `_extract_mastery`: thesis when "Thesis Defense" appears, else project when "Capstone Project" appears, else none; its property is MasteryExtended |
| CourseLine.TermEnd | backend/app/services/pdf_parser.py:8 | the term alternatives followed by whitespace and four digits end where whitespace follows the digits |
| CourseLine.SubjectAfter | backend/app/services/pdf_parser.py:8 | after whitespace, the subject is a run of two to five capitals that is not followed by another capital |
| CourseLine.TitleEnd | backend/app/services/pdf_parser.py:14 | the lazy title stops at the first position from which the rest of the pattern matches |
| CourseLine.IpEndIsTypeEnd | backend/app/services/pdf_parser.py:17 | wherever the "IP" course-type alternative matches, the two-or-three-capitals alternative matches too |
| CourseLine.GradeList | backend/app/services/pdf_parser.py:15 | the grade alternatives accept exactly the 23 listed grades |
| CourseLine.HeadShape | backend/app/services/pdf_parser.py:11-13 | a matched head has a term longer than four characters, a subject of two to five capitals, and a number of three digits with an optional capital |
| CourseLine.MatchCourseShape | backend/app/services/pdf_parser.py:10-18 | every course-pattern match has a term at the line start, subject, number, a non-empty title, a listed grade or none, credits `d.dd` and a type of two or three capitals or none |
| CourseLine.MatchedLineStarts | backend/app/services/pdf_parser.py:7-18 | every line the course pattern matches also matches the course-line start pattern |
| CourseLine.StartAgrees | backend/app/services/pdf_parser.py:7-9 | the start pattern depends only on the text up to the end of the subject and on the character after it not being a word character |
| CourseLine.StartExtended | backend/app/services/pdf_parser.py:104 | appending " " and more text to a course-line start keeps it a course-line start |
| CourseLine.StartStripped | backend/app/services/pdf_parser.py:99 | stripping a course-line start keeps it a course-line start |
| CourseLine.SearchCreditLineLeftmost | backend/app/services/pdf_parser.py:19-25 | `CREDIT_LINE_PATTERN.search` returns the match at the leftmost position that has one |
| CourseLine.SearchCreditLineFinds | backend/app/services/pdf_parser.py:19-25 | the search finds a match whenever some position of the line has one |
| CourseLine.MatchCourse | backend/app/services/pdf_parser.py:10-18 | defines the course pattern matched at the start of a line: term, subject, number and title, then the grade, credits and type tail; its property is MatchCourseShape |
| CourseLine.CourseLineStart | backend/app/services/pdf_parser.py:7-9 | defines the start of a course entry: a term followed by a whole subject word; its properties are MatchedLineStarts and StartAgrees |
| CourseLine.SearchCreditLine | backend/app/services/pdf_parser.py:19-25 | defines the credit-requirement search as the match at the leftmost position that has one; its properties are SearchCreditLineLeftmost and SearchCreditLineFinds |
| CoursicleDecoder.ShiftCharOverrides | backend/app/scrapers/coursicle_decoder.py:7-22 | the shift sends '/' to 'f', '+' to 'e' and 'K' to '+' |
| CoursicleDecoder.ShiftKeepsBase64 | backend/app/scrapers/coursicle_decoder.py:3-29 | the shift maps the base64 alphabet into itself |
| CoursicleDecoder.ShiftInjectiveOnBase64 | backend/app/scrapers/coursicle_decoder.py:3-29 | no two base64 characters shift to the same one, so on the alphabet the shift is a permutation |
| CoursicleDecoder.TransformAt | backend/app/scrapers/coursicle_decoder.py:31-35 | `_transform_string` shifts each character in place, keeping the length |
| CoursicleDecoder.TransformString | backend/app/scrapers/coursicle_decoder.py:31-35 | the collecting loop computes the character-by-character shift |
| CoursicleDecoder.ShiftPassesLength | backend/app/scrapers/coursicle_decoder.py:65-66 | any number of passes keeps the length |
| CoursicleDecoder.ShiftPassesKeepBase64 | backend/app/scrapers/coursicle_decoder.py:65-66 | base64 text stays base64 text through any number of passes |
| CoursicleDecoder.ReplaceOne | backend/app/scrapers/coursicle_decoder.py:62 | `str.replace` with one-character strings replaces every occurrence and nothing else |
| CoursicleDecoder.ReplaceInOrderPointwise | backend/app/scrapers/coursicle_decoder.py:61-62 | the replacements applied in order act on each character independently |
| CoursicleDecoder.SequentialIsSubstitute | backend/app/scrapers/coursicle_decoder.py:61-62 | when no target is a source, the replacements in order equal one simultaneous substitution |
| CoursicleDecoder.ReplacementTableDisjoint | backend/app/scrapers/coursicle_decoder.py:41-60 | no replacement target is a replacement source |
| CoursicleDecoder.SubstitutedSpec | backend/app/scrapers/coursicle_decoder.py:40-62 | after the replacement stage no punctuation source remains, each character is replaced at most once, and the length is kept |
| CoursicleDecoder.SubstitutedIsBase64 | backend/app/scrapers/coursicle_decoder.py:40-62 | text of base64 characters and punctuation stand-ins becomes pure base64 text |
| CoursicleDecoder.ReplacementTableBase64 | backend/app/scrapers/coursicle_decoder.py:41-60 | every replacement turns a non-base64 character into a base64 one |
| CoursicleDecoder.PadSpec | backend/app/scrapers/coursicle_decoder.py:70-72 | padding appends between zero and three '=' to reach a multiple of four, and none when the length already is one |
| CoursicleDecoder.DecodeResponse | backend/app/scrapers/coursicle_decoder.py:74-79 | the result is an error exactly when base64 or UTF-8 decoding of the prepared text fails, and otherwise that decoding |
| CoursicleDecoder.PreparedLength | backend/app/scrapers/coursicle_decoder.py:64-72 | the text reaching the decoder has a length that is a multiple of four, at most three longer than the input |
| CoursicleDecoder.PreparedIsBase64 | backend/app/scrapers/coursicle_decoder.py:40-72 | input over the base64 alphabet and the stand-ins reaches the decoder as base64 text followed only by '=' padding |
| CoursicleDecoder.ReplaceAll | backend/app/scrapers/coursicle_decoder.py:61-62 | the replacement loop applies each `replace` to the previous result |
| CoursicleDecoder.ShiftThreeTimes | backend/app/scrapers/coursicle_decoder.py:65-66 | the loop applies exactly three shift passes |
| CoursicleDecoder.DecodeCoursicleResponse | backend/app/scrapers/coursicle_decoder.py:37-79 | replacements, three passes, padding, then decoding, as the decode function states |
| CoursicleDecoder.ShiftChar | backend/app/scrapers/coursicle_decoder.py:3-29 | defines `_shift_char`: '/' to 'f', '+' to 'e' and 'K' to '+', and a fixed offset per code-point range for everything else; its properties are ShiftCharOverrides, ShiftKeepsBase64 and ShiftInjectiveOnBase64 |

## Left out

- The completion-oracle calls and the randomness around them (backend/app/services/schedule_generator.py:26-30, 753-865), `generate_reply` and `generate_reply_stream`, and the prompt wording. The oracle's reply is an input: an error, or the text of a list of ids.
- The Supabase HTTP client, retries and sleeps; every read and write of preferences, sessions, history and evaluations. The snapshot table is modelled in memory. The users table is a map from email to id.
- Flask routing, JWT handling and the rest of backend/app/main.py besides the lookup tables, the payload and the sign-up checks. The route's `min(limit, 200)` cap is not modelled; search takes `limit` as given.
- The scrapers. Their copies of the decoder are identical to backend/app/scrapers/coursicle_decoder.py.
- CSV reading and `ast.literal_eval` in `_parse_occurrence_data` and `_parse_semesters_offered`. Rows arrive already parsed: a missing catalog file is an absent row list, and an unparseable occurrence value is an absent structure.
- Base64 and UTF-8 decoding are a function parameter of the decoder. Only their failure or success is modelled.
- `PdfReader` text extraction, `_parse_student_info`, GPA parsing and computation (backend/app/services/pdf_parser.py:32-37, 56-89, 180-253), and the `parsed_at` timestamp.
- `_is_course_valid_for_program` is never called and is not modelled.
- `get_eecs_degree_requirements` is not modelled. It is a fixed list that the modelled operations never use.
- `_get_student_program_info` and `_get_completed_course_codes` read the stored payload. The program name and the completed-code set are parameters.
- `ScheduleSnapshot.from_db_row` and `to_dict` are not in the schedule types file, so they are not modelled.
- Letters, digits and case mapping are ASCII only. Whitespace is Python's full set of space code points. `float()` does not accept `inf` or `nan`.
- Floats are exact `real` numbers. Float-to-text formatting in warnings and prompts is not modelled: a warning carries its number as data.
- Timestamps are not modelled. `created_at` ordering is the table's insertion order, and listing is newest first.
- Module-level `logging` and `print` calls are not modelled.
- Every read of the in-memory table succeeds with status 200. The reply functions are also stated and proved for arbitrary replies, so the non-2xx cases are modelled there.
- `SnapshotTable.Insert` answers 409 when a new row repeats an id or a user's snapshot name. This models the table's unique keys, which are not in the repository. The fresh id is a parameter.
- `ScheduleSnapshotService.DeleteSnapshot` follows the code, not the docstring: it is true on 200 or 204 even when no row matched.
- The top-5 `candidate_list` is dead code in the source (backend/app/services/schedule_generator.py:653-709), but it is modelled anyway.
- The `catalog_year` parameter of `_get_valid_courses_for_program` is only logged. The model has no such parameter.
