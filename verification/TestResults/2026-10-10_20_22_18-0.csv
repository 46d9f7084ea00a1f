TestResult.DisplayName,TestResult.Outcome,TestResult.Duration,TestResult.ResourceCount,RandomSeed
DataSection.MemHandle (correctness),Passed,00:00:00.5763496,1549860,2
